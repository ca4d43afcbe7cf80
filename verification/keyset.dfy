/** The audit export: pages newest first after a cursor, walked while the table changes between pages. */
module Keyset {
  import opened TextOrder
  import opened Wrappers

  datatype Key = Key(at: int, id: string)

  datatype Row = Row(key: Key, record: string)

  const EXPORT_PAGE_SIZE := 500

  // ---------- the order of rows ----------

  /** Older: a smaller time, or the same time and a smaller id. */
  predicate Below(a: Key, b: Key) {
    a.at < b.at || (a.at == b.at && Less(a.id, b.id))
  }

  lemma BelowTransitive(a: Key, b: Key, c: Key)
    requires Below(a, b) && Below(b, c)
    ensures Below(a, c)
  {
    if a.at == b.at == c.at {
      LessTransitive(a.id, b.id, c.id);
    }
  }

  lemma BelowTotal(a: Key, b: Key)
    ensures (Below(a, b) || a == b || Below(b, a)) && !(Below(a, b) && Below(b, a)) && !Below(a, a)
  {
    LessTotal(a.id, b.id);
    LessTotal(a.id, a.id);
  }

  // ---------- one query ----------

  /** Newest first, no key twice. */
  ghost predicate IsDescending(rows: seq<Row>) {
    forall i, j | 0 <= i < j < |rows| :: Below(rows[j].key, rows[i].key)
  }

  lemma NewestFirst(rows: seq<Row>)
    ensures IsDescending(rows) <==>
              forall i, j | 0 <= i < j < |rows| ::
                || rows[j].key.at < rows[i].key.at
                || (rows[j].key.at == rows[i].key.at && Less(rows[j].key.id, rows[i].key.id))
  {
  }

  /** `(at, id)` names one row of a table at most. */
  ghost predicate HasKeys(table: seq<Row>) {
    forall i, j | 0 <= i < j < |table| :: table[i].key != table[j].key
  }

  predicate Meets(row: Row, conditions: seq<Row -> bool>) {
    forall i | 0 <= i < |conditions| :: conditions[i](row)
  }

  function Insert(row: Row, rows: seq<Row>): seq<Row> {
    if rows == [] || Below(rows[0].key, row.key) then [row] + rows else [rows[0]] + Insert(row, rows[1..])
  }

  /** The rows of a table that meet the conditions, `ORDER BY at DESC, id DESC`. */
  function Selected(table: seq<Row>, conditions: seq<Row -> bool>): seq<Row> {
    if table == [] then []
    else
      var rest := Selected(table[1..], conditions);
      if Meets(table[0], conditions) then Insert(table[0], rest) else rest
  }

  lemma {:induction false} InsertHolds(row: Row, rows: seq<Row>, any: Row)
    ensures any in Insert(row, rows) <==> any == row || any in rows
  {
    if rows != [] && !Below(rows[0].key, row.key) {
      InsertHolds(row, rows[1..], any);
      assert any in rows <==> any == rows[0] || any in rows[1..];
    }
  }

  lemma {:induction false} InsertDescends(row: Row, rows: seq<Row>)
    requires IsDescending(rows) && forall i | 0 <= i < |rows| :: rows[i].key != row.key
    ensures IsDescending(Insert(row, rows))
  {
    if rows == [] {
    } else if Below(rows[0].key, row.key) {
      forall i | 0 <= i < |rows|
        ensures Below(rows[i].key, row.key)
      {
        if i > 0 {
          BelowTransitive(rows[i].key, rows[0].key, row.key);
        }
      }
    } else {
      BelowTotal(rows[0].key, row.key);
      InsertDescends(row, rows[1..]);
      var rest := Insert(row, rows[1..]);
      forall i | 0 <= i < |rest|
        ensures Below(rest[i].key, rows[0].key)
      {
        InsertHolds(row, rows[1..], rest[i]);
        if rest[i] in rows[1..] {
          var j :| 0 <= j < |rows[1..]| && rows[1..][j] == rest[i];
          assert Below(rows[j + 1].key, rows[0].key);
        }
      }
    }
  }

  lemma {:induction false} SelectedHolds(table: seq<Row>, conditions: seq<Row -> bool>, any: Row)
    ensures any in Selected(table, conditions) <==> any in table && Meets(any, conditions)
  {
    if table != [] {
      SelectedHolds(table[1..], conditions, any);
      InsertHolds(table[0], Selected(table[1..], conditions), any);
      assert any in table <==> any == table[0] || any in table[1..];
    }
  }

  lemma {:induction false} SelectedDescends(table: seq<Row>, conditions: seq<Row -> bool>)
    requires HasKeys(table)
    ensures IsDescending(Selected(table, conditions))
  {
    if table != [] {
      SelectedDescends(table[1..], conditions);
      var rest := Selected(table[1..], conditions);
      if Meets(table[0], conditions) {
        forall i | 0 <= i < |rest|
          ensures rest[i].key != table[0].key
        {
          SelectedHolds(table[1..], conditions, rest[i]);
          var j :| 0 <= j < |table[1..]| && table[1..][j] == rest[i];
          assert table[j + 1].key == rest[i].key;
        }
        InsertDescends(table[0], rest);
      }
    }
  }

  datatype Page = Page(records: seq<Row>, next: Option<Key>)

  predicate InWindow(row: Row, from: int, to: int) {
    from <= row.key.at < to
  }

  predicate IsPast(row: Row, cursor: Option<Key>) {
    cursor.Some? ==> Below(row.key, cursor.value)
  }

  predicate IsWanted(row: Row, from: int, to: int, cursor: Option<Key>, filters: seq<Row -> bool>) {
    InWindow(row, from, to) && IsPast(row, cursor) && Meets(row, filters)
  }

  lemma MeetsJoin(row: Row, some: seq<Row -> bool>, more: seq<Row -> bool>)
    ensures Meets(row, some + more) <==> Meets(row, some) && Meets(row, more)
  {
    var all := some + more;
    assert forall i | 0 <= i < |some| :: all[i] == some[i];
    assert forall i | 0 <= i < |more| :: all[|some| + i] == more[i];
  }

  /** What a page promises whatever the table holds: newest first, only wanted rows, and every wanted row either on it
      or past its cursor. */
  ghost predicate IsPage(page: Page, table: seq<Row>, from: int, to: int, limit: nat, cursor: Option<Key>,
                         filters: seq<Row -> bool>) {
    && IsDescending(page.records) && |page.records| <= limit
    && (forall i | 0 <= i < |page.records| ::
          page.records[i] in table && IsWanted(page.records[i], from, to, cursor, filters))
    && (page.next.Some? ==> |page.records| == limit > 0 && page.next.value == page.records[limit - 1].key
                            && exists row :: row in table && IsWanted(row, from, to, page.next, filters))
    && (forall row | row in table && IsWanted(row, from, to, cursor, filters) ::
          row in page.records || (page.next.Some? && Below(row.key, page.next.value)))
  }

  /** A page read without the names above: its rows are of the table and the window, meet every filter and lie past the
      cursor it was asked for; any other such row lies past the cursor it answers with. */
  lemma PageTells(page: Page, table: seq<Row>, from: int, to: int, limit: nat, cursor: Option<Key>,
                  filters: seq<Row -> bool>, row: Row)
    requires IsPage(page, table, from, to, limit, cursor, filters)
    ensures var isMeant := && from <= row.key.at < to && (forall i | 0 <= i < |filters| :: filters[i](row))
                           && (cursor.Some? ==>
                                 || row.key.at < cursor.value.at
                                 || (row.key.at == cursor.value.at && Less(row.key.id, cursor.value.id)));
            && (row in page.records ==> row in table && isMeant)
            && (row in table && isMeant && row !in page.records ==>
                  && page.next.Some? && |page.records| == limit
                  && (row.key.at < page.next.value.at
                      || (row.key.at == page.next.value.at && Less(row.key.id, page.next.value.id))))
  {
  }

  /** One page; it reads one row more than it returns to learn whether another page exists. */
  method ListPage(table: seq<Row>, from: int, to: int, limit: nat, cursor: Option<Key>, filters: seq<Row -> bool>)
    returns (page: Page)
    requires HasKeys(table) && limit > 0
    ensures IsPage(page, table, from, to, limit, cursor, filters)
  {
    hide IsDescending, Selected;
    var conditions: seq<Row -> bool> := [(row: Row) => row.key.at >= from, (row: Row) => row.key.at < to];
    if cursor.Some? {
      var key := cursor.value;
      conditions := conditions
                    + [(row: Row) => row.key.at < key.at || (row.key.at == key.at && Less(row.key.id, key.id))];
    }
    forall row: Row
      ensures Meets(row, conditions) <==> InWindow(row, from, to) && IsPast(row, cursor)
    {
      assert conditions[0](row) == (row.key.at >= from) && conditions[1](row) == (row.key.at < to);
      assert cursor.Some? ==> |conditions| == 3 && conditions[2](row) == Below(row.key, cursor.value);
    }
    ghost var base := conditions;
    for i := 0 to |filters|
      invariant conditions == base + filters[..i]
    {
      conditions := conditions + [filters[i]];
    }
    assert filters[..|filters|] == filters;
    forall row
      ensures Meets(row, conditions) <==> IsWanted(row, from, to, cursor, filters)
    {
      MeetsJoin(row, base, filters);
    }
    var selected := Selected(table, conditions);
    var rows := if |selected| > limit + 1 then selected[..limit + 1] else selected;
    var last := if |rows| > limit then Some(rows[limit - 1]) else None;
    page := Page(if |rows| > limit then rows[..limit] else rows, if last.Some? then Some(last.value.key) else None);
    PageOfSelected(page, table, conditions, from, to, limit, cursor, filters);
  }

  lemma PageOfSelected(page: Page, table: seq<Row>, conditions: seq<Row -> bool>, from: int, to: int, limit: nat,
                       cursor: Option<Key>, filters: seq<Row -> bool>)
    requires HasKeys(table) && limit > 0
    requires forall row :: Meets(row, conditions) <==> IsWanted(row, from, to, cursor, filters)
    requires page == Cut(Selected(table, conditions), limit)
    ensures IsPage(page, table, from, to, limit, cursor, filters)
  {
    hide Selected, Meets, IsWanted, HasKeys, IsDescending, Cut;
    var all := Selected(table, conditions);
    SelectedDescends(table, conditions);
    forall row
      ensures row in all <==> row in table && IsWanted(row, from, to, cursor, filters)
    {
      SelectedHolds(table, conditions, row);
    }
    CutDescending(all, limit);
    if page.next.Some? {
      var more := all[limit];
      assert more in all;
      StillWanted(more, from, to, cursor, page.next, filters);
    }
  }

  /** At most `limit` of the rows, and the key of the last of them when there are more. */
  function Cut(rows: seq<Row>, limit: nat): Page
    requires limit > 0
  {
    if |rows| > limit then Page(rows[..limit], Some(rows[limit - 1].key)) else Page(rows, None)
  }

  lemma CutDescending(all: seq<Row>, limit: nat)
    requires IsDescending(all) && limit > 0
    ensures var page := Cut(all, limit);
            && IsDescending(page.records) && |page.records| <= limit
            && (forall i | 0 <= i < |page.records| :: page.records[i] in all)
            && (page.next.Some? ==> |page.records| == limit && page.next.value == page.records[limit - 1].key
                                    && |all| > limit && Below(all[limit].key, page.next.value))
            && (forall row | row in all :: row in page.records || (page.next.Some? && Below(row.key, page.next.value)))
  {
    var page := Cut(all, limit);
    assert forall i | 0 <= i < |page.records| :: page.records[i] == all[i];
    forall row | row in all
      ensures row in page.records || (page.next.Some? && Below(row.key, page.next.value))
    {
      var i :| 0 <= i < |all| && all[i] == row;
      assert i < |page.records| ==> page.records[i] == row;
    }
  }

  lemma StillWanted(row: Row, from: int, to: int, cursor: Option<Key>, next: Option<Key>, filters: seq<Row -> bool>)
    requires IsWanted(row, from, to, cursor, filters) && next.Some? && Below(row.key, next.value)
    ensures IsWanted(row, from, to, next, filters)
  {
  }

  // ---------- the walk ----------

  ghost predicate IsEverywhere(row: Row, tables: seq<seq<Row>>) {
    forall k | 0 <= k < |tables| :: row in tables[k]
  }

  ghost predicate IsSomewhere(row: Row, tables: seq<seq<Row>>) {
    exists k :: 0 <= k < |tables| && row in tables[k]
  }

  /** Where a walk has got to after the tables read so far. */
  ghost predicate HasWalked(emitted: seq<Row>, cursor: Option<Key>, tables: seq<seq<Row>>, from: int, to: int) {
    && IsDescending(emitted)
    && (forall i | 0 <= i < |emitted| :: IsSomewhere(emitted[i], tables) && InWindow(emitted[i], from, to))
    && (tables != [] && cursor.Some? ==> emitted != [] && emitted[|emitted| - 1].key == cursor.value)
    && (forall row | IsEverywhere(row, tables) && InWindow(row, from, to) && tables != [] ::
          row in emitted || (cursor.Some? && Below(row.key, cursor.value)))
  }

  lemma {:induction false} WalkOn(emitted: seq<Row>, cursor: Option<Key>, tables: seq<seq<Row>>, table: seq<Row>,
                                  from: int, to: int, page: Page)
    requires HasWalked(emitted, cursor, tables, from, to) && IsPage(page, table, from, to, EXPORT_PAGE_SIZE, cursor, [])
    requires tables == [] ==> cursor.None? && emitted == []
    requires tables != [] ==> cursor.Some?
    ensures HasWalked(emitted + page.records, page.next, tables + [table], from, to)
  {
    var all, now := emitted + page.records, tables + [table];
    assert now[|tables|] == table;
    JoinDescends(emitted, page.records, cursor);
    forall i | 0 <= i < |all|
      ensures IsSomewhere(all[i], now) && InWindow(all[i], from, to)
    {
      if i < |emitted| {
        var k :| 0 <= k < |tables| && emitted[i] in tables[k];
        assert all[i] in now[k];
      } else {
        assert all[i] == page.records[i - |emitted|] && all[i] in now[|tables|];
      }
    }
    forall row | IsEverywhere(row, now) && InWindow(row, from, to)
      ensures row in all || (page.next.Some? && Below(row.key, page.next.value))
    {
      assert row in now[|tables|];
      assert IsEverywhere(row, tables) by {
        assert forall k | 0 <= k < |tables| :: now[k] == tables[k];
      }
      if row !in emitted {
        assert IsWanted(row, from, to, cursor, []);
      }
    }
  }

  lemma JoinDescends(emitted: seq<Row>, records: seq<Row>, cursor: Option<Key>)
    requires IsDescending(emitted) && IsDescending(records)
    requires emitted != [] ==> cursor.Some? && emitted[|emitted| - 1].key == cursor.value
    requires forall i | 0 <= i < |records| :: IsPast(records[i], cursor)
    ensures IsDescending(emitted + records)
  {
    var all := emitted + records;
    forall i, j | 0 <= i < j < |all|
      ensures Below(all[j].key, all[i].key)
    {
      if i < |emitted| <= j {
        assert Below(records[j - |emitted|].key, cursor.value);
        if i < |emitted| - 1 {
          BelowTransitive(all[j].key, cursor.value, all[i].key);
        }
      }
    }
  }

  lemma Begins(from: int, to: int)
    ensures HasWalked([], None, [], from, to)
  {
  }

  /** The lines of an export whose consumer reads at most `|tables|` pages, the table being `tables[k]` at page `k`. */
  method Lines(tables: seq<seq<Row>>, from: int, to: int) returns (emitted: seq<Row>, isComplete: bool, pages: nat)
    requires tables != [] && forall k | 0 <= k < |tables| :: HasKeys(tables[k])
    ensures IsDescending(emitted) && 1 <= pages <= |tables|
    ensures forall i | 0 <= i < |emitted| :: IsSomewhere(emitted[i], tables[..pages]) && from <= emitted[i].key.at < to
    ensures isComplete ==>
              forall row | IsEverywhere(row, tables[..pages]) && from <= row.key.at < to :: row in emitted
    ensures !isComplete ==>
              && pages == |tables| && |emitted| == pages * 500
              && exists row :: row in tables[pages - 1] && from <= row.key.at < to && row !in emitted
  {
    hide IsDescending, HasWalked, IsPage;
    emitted := [];
    var cursor: Option<Key> := None;
    isComplete := false;
    pages := 0;
    Begins(from, to);
    ghost var last := Page([], None);
    while pages == 0 || (cursor.Some? && pages < |tables|)
      invariant pages <= |tables| && HasWalked(emitted, cursor, tables[..pages], from, to)
      invariant pages == 0 ==> cursor.None? && emitted == []
      invariant cursor.Some? ==> |emitted| == pages * EXPORT_PAGE_SIZE
      invariant pages > 0 ==> EndsOn(emitted, cursor, tables[pages - 1], from, to)
      decreases |tables| - pages
    {
      var page := ListPage(tables[pages], from, to, EXPORT_PAGE_SIZE, cursor, []);
      WalkOn(emitted, cursor, tables[..pages], tables[pages], from, to, page);
      assert tables[..pages + 1] == tables[..pages] + [tables[pages]];
      FullPage(page, tables[pages], from, to, cursor);
      NothingBelow(emitted + page.records, page, tables[..pages + 1], tables[pages], from, to, cursor);
      emitted := emitted + page.records;
      cursor := page.next;
      pages := pages + 1;
    }
    isComplete := cursor.None?;
    WalkEnds(emitted, cursor, tables[..pages], from, to);
  }

  /** When there is a cursor, the table last read holds a row still to come. */
  ghost predicate EndsOn(emitted: seq<Row>, cursor: Option<Key>, table: seq<Row>, from: int, to: int) {
    cursor.Some? ==> exists row :: row in table && InWindow(row, from, to) && row !in emitted
  }

  lemma FullPage(page: Page, table: seq<Row>, from: int, to: int, cursor: Option<Key>)
    requires IsPage(page, table, from, to, EXPORT_PAGE_SIZE, cursor, [])
    ensures page.next.Some? ==> |page.records| == EXPORT_PAGE_SIZE
  {
  }

  lemma NotBelowLast(rows: seq<Row>, any: Row)
    requires IsDescending(rows) && rows != [] && Below(any.key, rows[|rows| - 1].key)
    ensures any !in rows
  {
    var last := rows[|rows| - 1];
    forall i | 0 <= i < |rows|
      ensures rows[i] != any
    {
      BelowTotal(rows[i].key, last.key);
      BelowTotal(last.key, last.key);
      assert i < |rows| - 1 ==> Below(last.key, rows[i].key);
    }
  }

  lemma NothingBelow(emitted: seq<Row>, page: Page, tables: seq<seq<Row>>, table: seq<Row>, from: int, to: int,
                     cursor: Option<Key>)
    requires HasWalked(emitted, page.next, tables, from, to) && tables != []
    requires IsPage(page, table, from, to, EXPORT_PAGE_SIZE, cursor, [])
    ensures EndsOn(emitted, page.next, table, from, to)
  {
    if page.next.Some? {
      var row :| row in table && IsWanted(row, from, to, page.next, []);
      NotBelowLast(emitted, row);
    }
  }

  lemma WalkEnds(emitted: seq<Row>, cursor: Option<Key>, tables: seq<seq<Row>>, from: int, to: int)
    requires HasWalked(emitted, cursor, tables, from, to) && tables != []
    ensures IsDescending(emitted)
    ensures forall i | 0 <= i < |emitted| :: IsSomewhere(emitted[i], tables) && InWindow(emitted[i], from, to)
    ensures cursor.None? ==> forall row | IsEverywhere(row, tables) && InWindow(row, from, to) :: row in emitted
  {
  }

  // ---------- a table that does not change ----------

  lemma {:induction false} DescendingIsUnique(a: seq<Row>, b: seq<Row>)
    requires IsDescending(a) && IsDescending(b) && forall row :: row in a <==> row in b
    ensures a == b
  {
    assert b != [] ==> b[0] in b;
    if a != [] {
      assert a[0] in b;
      assert b[0] in a;
      TopIsFirst(a, b[0]);
      TopIsFirst(b, a[0]);
      BelowTotal(a[0].key, b[0].key);
      assert a[0] == b[0];
      forall row
        ensures row in a[1..] <==> row in b[1..]
      {
        TailHolds(a, row);
        TailHolds(b, row);
      }
      assert IsDescending(a[1..]) && IsDescending(b[1..]);
      DescendingIsUnique(a[1..], b[1..]);
      assert a == [a[0]] + a[1..] && b == [b[0]] + b[1..];
    }
  }

  lemma TopIsFirst(rows: seq<Row>, any: Row)
    requires IsDescending(rows) && any in rows
    ensures any == rows[0] || Below(any.key, rows[0].key)
  {
  }

  lemma TailHolds(rows: seq<Row>, any: Row)
    requires IsDescending(rows) && rows != []
    ensures any in rows[1..] <==> any in rows && any != rows[0]
  {
    BelowTotal(rows[0].key, rows[0].key);
    if any in rows[1..] {
      var i :| 0 <= i < |rows[1..]| && rows[1..][i] == any;
      assert Below(rows[i + 1].key, rows[0].key);
    }
  }

  lemma {:induction false} FewerRows(some: seq<Row>, all: seq<Row>)
    requires IsDescending(some) && forall row | row in some :: row in all
    ensures |some| <= |all|
    decreases |some|
  {
    if some != [] {
      var last := some[|some| - 1];
      assert last in some;
      var i :| 0 <= i < |all| && all[i] == last;
      var front, others := some[..|some| - 1], all[..i] + all[i + 1..];
      forall row | row in front
        ensures row in others
      {
        var j :| 0 <= j < |front| && front[j] == row;
        BelowTotal(last.key, last.key);
        assert Below(last.key, some[j].key) && some[j] in some;
        var m :| 0 <= m < |all| && all[m] == row;
        assert m < i ==> others[m] == row;
        assert m > i ==> others[m - 1] == row;
      }
      FewerRows(front, others);
    }
  }

  /** The rows of a window, newest first. */
  function Window(table: seq<Row>, from: int, to: int): seq<Row> {
    Selected(table, [(row: Row) => InWindow(row, from, to)])
  }

  lemma WindowIs(table: seq<Row>, from: int, to: int)
    requires HasKeys(table)
    ensures IsDescending(Window(table, from, to))
    ensures forall row :: row in Window(table, from, to) <==> row in table && from <= row.key.at < to
  {
    var conditions := [(row: Row) => InWindow(row, from, to)];
    SelectedDescends(table, conditions);
    forall row
      ensures row in Window(table, from, to) <==> row in table && InWindow(row, from, to)
    {
      SelectedHolds(table, conditions, row);
      assert conditions[0](row) == InWindow(row, from, to);
    }
  }

  /** Over a table that stays as it is, the walk ends within the pages its rows fill and emits exactly the window. */
  method ExportUnchanged(table: seq<Row>, from: int, to: int, most: nat) returns (emitted: seq<Row>, pages: nat)
    requires HasKeys(table) && most > 0 && |Window(table, from, to)| <= most * 500
    ensures emitted == Window(table, from, to) && pages <= most
  {
    hide IsDescending, Selected, Window, HasKeys;
    var isComplete;
    var tables := seq(most, _ => table);
    emitted, isComplete, pages := Lines(tables, from, to);
    WindowIs(table, from, to);
    Unchanged(emitted, table, tables[..pages], from, to, isComplete);
  }

  lemma Unchanged(emitted: seq<Row>, table: seq<Row>, tables: seq<seq<Row>>, from: int, to: int, isComplete: bool)
    requires tables != [] && (forall k | 0 <= k < |tables| :: tables[k] == table) && IsDescending(emitted)
    requires IsDescending(Window(table, from, to))
    requires forall row :: row in Window(table, from, to) <==> row in table && InWindow(row, from, to)
    requires forall i | 0 <= i < |emitted| :: IsSomewhere(emitted[i], tables) && InWindow(emitted[i], from, to)
    requires isComplete ==> forall row | IsEverywhere(row, tables) && InWindow(row, from, to) :: row in emitted
    requires !isComplete ==>
               && |emitted| == |tables| * EXPORT_PAGE_SIZE
               && exists row :: row in table && InWindow(row, from, to) && row !in emitted
    ensures isComplete ==> emitted == Window(table, from, to)
    ensures !isComplete ==> |Window(table, from, to)| > |tables| * EXPORT_PAGE_SIZE
  {
    hide Selected, Window;
    var window := Window(table, from, to);
    forall row | row in emitted
      ensures row in window
    {
      var i :| 0 <= i < |emitted| && emitted[i] == row;
      assert IsSomewhere(row, tables);
    }
    if isComplete {
      forall row | row in window
        ensures row in emitted
      {
        assert IsEverywhere(row, tables);
      }
      DescendingIsUnique(emitted, window);
    } else {
      var missing :| missing in table && InWindow(missing, from, to) && missing !in emitted;
      var i :| 0 <= i < |window| && window[i] == missing;
      var others := window[..i] + window[i + 1..];
      forall row | row in emitted
        ensures row in others
      {
        var j :| 0 <= j < |window| && window[j] == row;
        assert j < i ==> others[j] == row;
        assert j > i ==> others[j - 1] == row;
      }
      FewerRows(emitted, others);
    }
  }
}
