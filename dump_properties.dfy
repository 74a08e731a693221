/**
 * What the dump traversal writes, stated independently of the writer
 * calls that produce it: the writer only ever appends, a row is an object
 * with one property per column in column order, a non-empty table is a
 * balanced entry, null ContainerIds are skipped, and an empty table
 * leaves its entry open in the stream of calls.
 */
module DumpProperties {
  import opened Wrappers
  import opened ColumnTypes
  import opened JsonWriter
  import opened EseDump

  /** w, with acc written before it. */
  function Shift(acc: seq<Token>, w: Written): Written
  {
    Written(acc + w.tokens, w.outcome)
  }

  /*
   * The writer only appends: each piece of the traversal writes the same
   * tokens, and ends the same way, whatever the writer already held.
   */

  lemma ValueFrame(acc: seq<Token>, pre: seq<Token>, column: Column, row: Row)
    ensures AfterValue(acc + pre, column, row) == Shift(acc, AfterValue(pre, column, row))
  {
    match Decode(TagOf(column.coltyp), CellOf(row, column))
    case Success(v) =>
      assert (acc + pre) + [Value(v)] == acc + (pre + [Value(v)]);
    case Failure(_) =>
  }

  lemma {:induction false} ColumnsFrame(acc: seq<Token>, pre: seq<Token>, columns: seq<Column>, row: Row, i: nat)
    requires i <= |columns|
    ensures AfterColumns(acc + pre, columns, row, i) == Shift(acc, AfterColumns(pre, columns, row, i))
    decreases |columns| - i
  {
    if i < |columns| {
      var p := [PropertyName(columns[i].name)];
      assert (acc + pre) + p == acc + (pre + p);
      ValueFrame(acc, pre + p, columns[i], row);
      var w := AfterValue(pre + p, columns[i], row);
      if w.outcome.Pass? {
        ColumnsFrame(acc, w.tokens, columns, row, i + 1);
      }
    }
  }

  lemma RowFrame(acc: seq<Token>, pre: seq<Token>, columns: seq<Column>, row: Row)
    ensures AfterRow(acc + pre, columns, row) == Shift(acc, AfterRow(pre, columns, row))
  {
    assert (acc + pre) + [StartObject] == acc + (pre + [StartObject]);
    ColumnsFrame(acc, pre + [StartObject], columns, row, 0);
    var w := AfterColumns(pre + [StartObject], columns, row, 0);
    assert (acc + w.tokens) + [EndObject] == acc + (w.tokens + [EndObject]);
  }

  lemma {:induction false} RowsFrame(acc: seq<Token>, pre: seq<Token>, columns: seq<Column>, rows: seq<Row>, i: nat)
    requires i <= |rows|
    ensures AfterRows(acc + pre, columns, rows, i) == Shift(acc, AfterRows(pre, columns, rows, i))
    decreases |rows| - i
  {
    if i < |rows| {
      RowFrame(acc, pre, columns, rows[i]);
      var w := AfterRow(pre, columns, rows[i]);
      if w.outcome.Pass? {
        RowsFrame(acc, w.tokens, columns, rows, i + 1);
      }
    }
  }

  lemma RowsArrayFrame(acc: seq<Token>, pre: seq<Token>, table: Table)
    ensures AfterRowsArray(acc + pre, table) == Shift(acc, AfterRowsArray(pre, table))
  {
    assert (acc + pre) + [StartArray] == acc + (pre + [StartArray]);
    RowsFrame(acc, pre + [StartArray], table.columns, table.rows, 0);
    var w := AfterRows(pre + [StartArray], table.columns, table.rows, 0);
    assert (acc + w.tokens) + [EndArray] == acc + (w.tokens + [EndArray]);
  }

  lemma TableFrame(acc: seq<Token>, pre: seq<Token>, db: Database, containerId: string)
    ensures AfterTable(acc + pre, db, containerId) == Shift(acc, AfterTable(pre, db, containerId))
  {
    var name := [PropertyName(ContainerPrefix + containerId)];
    var heading := pre + [StartObject] + name;
    assert (acc + pre) + [StartObject] + name == acc + heading;
    if containerId in db.tables && |db.tables[containerId].rows| > 0 {
      assert (acc + heading) + [StartObject] + [PropertyName(DataProperty)] == acc + (heading + [StartObject] + [PropertyName(DataProperty)]);
      RowsArrayFrame(acc, heading + [StartObject] + [PropertyName(DataProperty)], db.tables[containerId]);
      var w := AfterRowsArray(heading + [StartObject] + [PropertyName(DataProperty)], db.tables[containerId]);
      assert (acc + w.tokens) + [EndObject] + [EndObject] == acc + (w.tokens + [EndObject] + [EndObject]);
    }
  }

  /*
   * One row: an object with one property per column, in column order, each
   * name followed by the one value its column's accessor reads; or the
   * exception of the first column whose cell cannot be read.
   */

  /** The column's accessor can read the row's cell. */
  predicate Readable(column: Column, row: Row)
  {
    Decode(TagOf(column.coltyp), CellOf(row, column)).Success?
  }

  predicate ReadableFrom(columns: seq<Column>, row: Row, i: nat)
  {
    forall k :: i <= k < |columns| ==> Readable(columns[k], row)
  }

  function ValueOf(column: Column, row: Row): DecodedValue
    requires Readable(column, row)
  {
    Decode(TagOf(column.coltyp), CellOf(row, column)).value
  }

  /** The first column from i on whose cell cannot be read. */
  function FirstUnreadable(columns: seq<Column>, row: Row, i: nat): (k: nat)
    requires i <= |columns| && !ReadableFrom(columns, row, i)
    ensures i <= k < |columns| && !Readable(columns[k], row)
    ensures forall j :: i <= j < k ==> Readable(columns[j], row)
    decreases |columns| - i
  {
    if !Readable(columns[i], row) then i
    else
      var k := FirstUnreadable(columns, row, i + 1);
      assert forall j :: i + 1 <= j < k ==> Readable(columns[j], row);
      k
  }

  /** The properties of a row from column i on: each column's name, then its value. */
  function Members(columns: seq<Column>, row: Row, i: nat): seq<Token>
    requires i <= |columns| && ReadableFrom(columns, row, i)
    decreases |columns| - i
  {
    if i == |columns| then []
    else [PropertyName(columns[i].name), Value(ValueOf(columns[i], row))] + Members(columns, row, i + 1)
  }

  /** WriteValue writes the cell's value when it can be read, and nothing otherwise. */
  lemma ValueWritten(pre: seq<Token>, column: Column, row: Row)
    ensures Readable(column, row) ==> AfterValue(pre, column, row) == Written(pre + [Value(ValueOf(column, row))], Pass)
    ensures !Readable(column, row) ==>
      AfterValue(pre, column, row) == Written(pre, Fail(InvalidColumn(column.name, Decode(TagOf(column.coltyp), CellOf(row, column)).error)))
  {
  }

  /** The name and value of one readable column, followed by what the loop writes for the later columns. */
  lemma ColumnStep(pre: seq<Token>, columns: seq<Column>, row: Row, i: nat)
    requires i < |columns| && ReadableFrom(columns, row, i)
    requires var pair := [PropertyName(columns[i].name), Value(ValueOf(columns[i], row))];
      AfterColumns(pre + pair, columns, row, i + 1) == Written(pre + pair + Members(columns, row, i + 1), Pass)
    ensures AfterColumns(pre, columns, row, i) == Written(pre + Members(columns, row, i), Pass)
  {
    var name := PropertyName(columns[i].name);
    var v := Value(ValueOf(columns[i], row));
    ValueWritten(pre + [name], columns[i], row);
    assert pre + [name] + [v] == pre + [name, v];
    assert pre + [name, v] + Members(columns, row, i + 1) == pre + ([name, v] + Members(columns, row, i + 1));
  }

  /** With every cell from column i on readable, the column loop writes each name and value in order. */
  lemma {:induction false} ColumnsPass(pre: seq<Token>, columns: seq<Column>, row: Row, i: nat)
    requires i <= |columns| && ReadableFrom(columns, row, i)
    ensures AfterColumns(pre, columns, row, i) == Written(pre + Members(columns, row, i), Pass)
    decreases |columns| - i
  {
    if i == |columns| {
      assert pre + [] == pre;
    } else {
      ColumnsPass(pre + [PropertyName(columns[i].name), Value(ValueOf(columns[i], row))], columns, row, i + 1);
      ColumnStep(pre, columns, row, i);
    }
  }

  /** Otherwise the column loop raises the exception of the first unreadable column. */
  lemma {:induction false} ColumnsFail(pre: seq<Token>, columns: seq<Column>, row: Row, i: nat)
    requires i <= |columns| && !ReadableFrom(columns, row, i)
    ensures var k := FirstUnreadable(columns, row, i);
      AfterColumns(pre, columns, row, i).outcome
        == Fail(InvalidColumn(columns[k].name, Decode(TagOf(columns[k].coltyp), CellOf(row, columns[k])).error))
    decreases |columns| - i
  {
    var p := pre + [PropertyName(columns[i].name)];
    ValueWritten(p, columns[i], row);
    if Readable(columns[i], row) {
      ColumnsFail(AfterValue(p, columns[i], row).tokens, columns, row, i + 1);
    }
  }

  lemma ColumnsWritten(pre: seq<Token>, columns: seq<Column>, row: Row, i: nat)
    requires i <= |columns|
    ensures AfterColumns(pre, columns, row, i).outcome.Pass? <==> ReadableFrom(columns, row, i)
    ensures ReadableFrom(columns, row, i) ==> AfterColumns(pre, columns, row, i).tokens == pre + Members(columns, row, i)
    ensures !ReadableFrom(columns, row, i) ==>
      var k := FirstUnreadable(columns, row, i);
      AfterColumns(pre, columns, row, i).outcome
        == Fail(InvalidColumn(columns[k].name, Decode(TagOf(columns[k].coltyp), CellOf(row, columns[k])).error))
  {
    if ReadableFrom(columns, row, i) {
      ColumnsPass(pre, columns, row, i);
    } else {
      ColumnsFail(pre, columns, row, i);
    }
  }

  predicate RowReadable(columns: seq<Column>, row: Row)
  {
    ReadableFrom(columns, row, 0)
  }

  /** The object written for a readable row. */
  function RowObject(columns: seq<Column>, row: Row): seq<Token>
    requires RowReadable(columns, row)
  {
    [StartObject] + Members(columns, row, 0) + [EndObject]
  }

  /** WriteRowsAsJson's pass over one row writes its object, or stops at its first unreadable cell. */
  lemma RowWritten(pre: seq<Token>, columns: seq<Column>, row: Row)
    ensures AfterRow(pre, columns, row).outcome.Pass? <==> RowReadable(columns, row)
    ensures RowReadable(columns, row) ==> AfterRow(pre, columns, row).tokens == pre + RowObject(columns, row)
    ensures !RowReadable(columns, row) ==>
      var k := FirstUnreadable(columns, row, 0);
      AfterRow(pre, columns, row).outcome
        == Fail(InvalidColumn(columns[k].name, Decode(TagOf(columns[k].coltyp), CellOf(row, columns[k])).error))
  {
    ColumnsWritten(pre + [StartObject], columns, row, 0);
    if RowReadable(columns, row) {
      assert pre + [StartObject] + Members(columns, row, 0) + [EndObject] == pre + RowObject(columns, row);
    }
  }

  /** Property name k of a row object is column k's name, and a value follows it. */
  lemma {:induction false} MembersAt(columns: seq<Column>, row: Row, i: nat, k: nat)
    requires i <= k < |columns| && ReadableFrom(columns, row, i)
    ensures |Members(columns, row, i)| == 2 * (|columns| - i)
    ensures Members(columns, row, i)[2 * (k - i)] == PropertyName(columns[k].name)
    ensures Members(columns, row, i)[2 * (k - i) + 1] == Value(ValueOf(columns[k], row))
    decreases k - i
  {
    if i < k {
      MembersAt(columns, row, i + 1, k);
    } else {
      MembersLength(columns, row, i + 1);
    }
  }

  lemma {:induction false} MembersLength(columns: seq<Column>, row: Row, i: nat)
    requires i <= |columns| && ReadableFrom(columns, row, i)
    ensures |Members(columns, row, i)| == 2 * (|columns| - i)
    decreases |columns| - i
  {
    if i < |columns| {
      MembersLength(columns, row, i + 1);
    }
  }

  /**
   * Every row object of a table has the table's columns as its property
   * names, in the column order and whatever the row holds, each followed by
   * exactly one value.
   */
  lemma RowColumnOrder(columns: seq<Column>, row: Row)
    requires RowReadable(columns, row)
    ensures |RowObject(columns, row)| == 2 * |columns| + 2
    ensures RowObject(columns, row)[0] == StartObject
    ensures RowObject(columns, row)[2 * |columns| + 1] == EndObject
    ensures forall k :: 0 <= k < |columns| ==>
      RowObject(columns, row)[2 * k + 1] == PropertyName(columns[k].name) &&
      RowObject(columns, row)[2 * k + 2] == Value(ValueOf(columns[k], row))
  {
    MembersLength(columns, row, 0);
    var ms := Members(columns, row, 0);
    var obj := RowObject(columns, row);
    forall k | 0 <= k < |columns|
      ensures obj[2 * k + 1] == PropertyName(columns[k].name)
      ensures obj[2 * k + 2] == Value(ValueOf(columns[k], row))
    {
      MembersAt(columns, row, 0, k);
      assert obj[2 * k + 1] == ms[2 * k];
      assert obj[2 * k + 2] == ms[2 * k + 1];
    }
  }

  /** Inside an object, the members of a row are skipped over pair by pair. */
  lemma {:induction false} MembersParse(columns: seq<Column>, row: Row, i: nat, z: seq<Token>)
    requires i <= |columns| && ReadableFrom(columns, row, i)
    ensures ParseMembers(Members(columns, row, i) + z) == ParseMembers(z)
    decreases |columns| - i
  {
    if i == |columns| {
      assert [] + z == z;
    } else {
      var v := [Value(ValueOf(columns[i], row))];
      var rest := Members(columns, row, i + 1) + z;
      assert WellFormed(v);
      MemberPrefix(columns[i].name, v, rest);
      assert Members(columns, row, i) + z == [PropertyName(columns[i].name)] + v + rest;
      MembersParse(columns, row, i + 1, z);
    }
  }

  /** A row object is one JSON value. */
  lemma RowObjectWellFormed(columns: seq<Column>, row: Row)
    requires RowReadable(columns, row)
    ensures WellFormed(RowObject(columns, row))
  {
    var obj := RowObject(columns, row);
    assert obj[1..] == Members(columns, row, 0) + [EndObject];
    MembersParse(columns, row, 0, [EndObject]);
  }

  /*
   * The rows of a table: one object per row, in row order, or the
   * exception of the first row that holds an unreadable cell.
   */

  predicate RowsReadableFrom(columns: seq<Column>, rows: seq<Row>, i: nat)
  {
    forall r :: i <= r < |rows| ==> RowReadable(columns, rows[r])
  }

  function FirstUnreadableRow(columns: seq<Column>, rows: seq<Row>, i: nat): (r: nat)
    requires i <= |rows| && !RowsReadableFrom(columns, rows, i)
    ensures i <= r < |rows| && !RowReadable(columns, rows[r])
    ensures forall j :: i <= j < r ==> RowReadable(columns, rows[j])
    decreases |rows| - i
  {
    if !RowReadable(columns, rows[i]) then i else FirstUnreadableRow(columns, rows, i + 1)
  }

  /** The objects of the rows from row i on, one after the other. */
  function Objects(columns: seq<Column>, rows: seq<Row>, i: nat): seq<Token>
    requires i <= |rows| && RowsReadableFrom(columns, rows, i)
    decreases |rows| - i
  {
    if i == |rows| then [] else RowObject(columns, rows[i]) + Objects(columns, rows, i + 1)
  }

  /** With every row from i on readable, the loop writes their objects in order. */
  lemma {:induction false} RowsPass(pre: seq<Token>, columns: seq<Column>, rows: seq<Row>, i: nat)
    requires i <= |rows| && RowsReadableFrom(columns, rows, i)
    ensures AfterRows(pre, columns, rows, i) == Written(pre + Objects(columns, rows, i), Pass)
    decreases |rows| - i
  {
    if i == |rows| {
      assert pre + [] == pre;
    } else {
      RowWritten(pre, columns, rows[i]);
      var w := AfterRow(pre, columns, rows[i]);
      RowsPass(w.tokens, columns, rows, i + 1);
      assert pre + RowObject(columns, rows[i]) + Objects(columns, rows, i + 1)
          == pre + Objects(columns, rows, i);
    }
  }

  /** Otherwise the loop ends with the exception of the first row holding an unreadable cell. */
  lemma {:induction false} RowsFail(pre: seq<Token>, columns: seq<Column>, rows: seq<Row>, i: nat)
    requires i <= |rows| && !RowsReadableFrom(columns, rows, i)
    ensures AfterRows(pre, columns, rows, i).outcome == AfterRow([], columns, rows[FirstUnreadableRow(columns, rows, i)]).outcome
    decreases |rows| - i
  {
    RowWritten(pre, columns, rows[i]);
    RowWritten([], columns, rows[i]);
    if RowReadable(columns, rows[i]) {
      var w := AfterRow(pre, columns, rows[i]);
      RowsFail(w.tokens, columns, rows, i + 1);
    }
  }

  lemma RowsWritten(pre: seq<Token>, columns: seq<Column>, rows: seq<Row>, i: nat)
    requires i <= |rows|
    ensures AfterRows(pre, columns, rows, i).outcome.Pass? <==> RowsReadableFrom(columns, rows, i)
    ensures RowsReadableFrom(columns, rows, i) ==> AfterRows(pre, columns, rows, i).tokens == pre + Objects(columns, rows, i)
    ensures !RowsReadableFrom(columns, rows, i) ==>
      AfterRows(pre, columns, rows, i).outcome == AfterRow([], columns, rows[FirstUnreadableRow(columns, rows, i)]).outcome
  {
    if RowsReadableFrom(columns, rows, i) {
      RowsPass(pre, columns, rows, i);
    } else {
      RowsFail(pre, columns, rows, i);
      RowWritten([], columns, rows[FirstUnreadableRow(columns, rows, i)]);
    }
  }

  /** Inside an array, the row objects are skipped over one by one. */
  lemma {:induction false} ObjectsParse(columns: seq<Column>, rows: seq<Row>, i: nat, z: seq<Token>)
    requires i <= |rows| && RowsReadableFrom(columns, rows, i)
    ensures ParseElements(Objects(columns, rows, i) + z) == ParseElements(z)
    decreases |rows| - i
  {
    if i == |rows| {
      assert [] + z == z;
    } else {
      var obj := RowObject(columns, rows[i]);
      var rest := Objects(columns, rows, i + 1) + z;
      RowObjectWellFormed(columns, rows[i]);
      ElementPrefix(obj, rest);
      assert Objects(columns, rows, i) + z == obj + rest;
      ObjectsParse(columns, rows, i + 1, z);
    }
  }

  predicate TableReadable(table: Table)
  {
    RowsReadableFrom(table.columns, table.rows, 0)
  }

  /** The array WriteRowsAsJson writes for a readable table. */
  function RowsArray(table: Table): seq<Token>
    requires TableReadable(table)
  {
    [StartArray] + Objects(table.columns, table.rows, 0) + [EndArray]
  }

  lemma RowsArrayWritten(pre: seq<Token>, table: Table)
    ensures AfterRowsArray(pre, table).outcome.Pass? <==> TableReadable(table)
    ensures TableReadable(table) ==> AfterRowsArray(pre, table).tokens == pre + RowsArray(table)
  {
    if TableReadable(table) {
      var objects := Objects(table.columns, table.rows, 0);
      RowsPass(pre + [StartArray], table.columns, table.rows, 0);
      assert pre + [StartArray] + objects + [EndArray] == pre + ([StartArray] + objects + [EndArray]);
    } else {
      RowsWritten(pre + [StartArray], table.columns, table.rows, 0);
    }
  }

  /** The array of row objects is one JSON value. */
  lemma RowsArrayWellFormed(table: Table)
    requires TableReadable(table)
    ensures WellFormed(RowsArray(table))
  {
    ObjectsParse(table.columns, table.rows, 0, [EndArray]);
    ArrayOf(Objects(table.columns, table.rows, 0));
  }

  /*
   * One container entry, as WriteTableAsJson writes it.
   */

  /** The two tokens every entry starts with: note ContainerPrefix before a name that already carries it. */
  function EntryHeading(containerId: string): seq<Token>
  {
    [StartObject, PropertyName(ContainerPrefix + containerId)]
  }

  /** The table exists and every cell of it can be read: WriteTableAsJson ends normally. */
  predicate EntryPasses(db: Database, containerId: string)
  {
    containerId in db.tables && TableReadable(db.tables[containerId])
  }

  /** The table exists and has no rows: WriteTableAsJson returns right after the heading. */
  predicate EmptyEntry(db: Database, containerId: string)
  {
    containerId in db.tables && |db.tables[containerId].rows| == 0
  }

  /** The entry for a non-empty readable table: {"Container_" + containerId: {"data": [rows]}}. */
  function FullEntry(db: Database, containerId: string): seq<Token>
    requires EntryPasses(db, containerId)
  {
    EntryHeading(containerId) + [StartObject, PropertyName(DataProperty)] + RowsArray(db.tables[containerId]) + [EndObject, EndObject]
  }

  lemma TableWritten(db: Database, containerId: string)
    ensures containerId !in db.tables ==>
      AfterTable([], db, containerId) == Written(EntryHeading(containerId), Fail(TableNotFound(containerId)))
    ensures EmptyEntry(db, containerId) ==>
      AfterTable([], db, containerId) == Written(EntryHeading(containerId), Pass)
    ensures AfterTable([], db, containerId).outcome.Pass? <==> EntryPasses(db, containerId)
    ensures EntryPasses(db, containerId) && !EmptyEntry(db, containerId) ==>
      AfterTable([], db, containerId).tokens == FullEntry(db, containerId)
  {
    var heading := [] + [StartObject] + [PropertyName(ContainerPrefix + containerId)];
    assert heading == EntryHeading(containerId);
    if containerId in db.tables && |db.tables[containerId].rows| > 0 {
      var table := db.tables[containerId];
      var pre := heading + [StartObject] + [PropertyName(DataProperty)];
      RowsArrayWritten(pre, table);
      if TableReadable(table) {
        assert pre + RowsArray(table) + [EndObject] + [EndObject] == FullEntry(db, containerId);
      }
    }
  }

  /**
   * Whether WriteTableAsJson ends normally: the third ensures of
   * TableWritten on its own, so callers that need only the outcome do not
   * take in the tokens as well.
   */
  lemma TablePasses(db: Database, containerId: string)
    ensures AfterTable([], db, containerId).outcome.Pass? <==> EntryPasses(db, containerId)
  {
    TableWritten(db, containerId);
  }

  /** Whatever the table holds, its entry starts with the heading. */
  lemma EntryStartsWithHeading(db: Database, containerId: string)
    ensures var t := AfterTable([], db, containerId).tokens;
      |t| >= 2 && t[..2] == EntryHeading(containerId)
  {
    var heading := [] + [StartObject] + [PropertyName(ContainerPrefix + containerId)];
    assert heading == EntryHeading(containerId);
    if containerId in db.tables && |db.tables[containerId].rows| > 0 {
      var pre := heading + [StartObject] + [PropertyName(DataProperty)];
      assert pre + [] == pre;
      RowsArrayFrame(pre, [], db.tables[containerId]);
      var w := AfterRowsArray(pre, db.tables[containerId]);
      assert (w.tokens + [EndObject] + [EndObject])[..2] == heading;
    }
  }

  lemma HeadingDepth(containerId: string)
    ensures Depth(EntryHeading(containerId)) == 1
  {
    var heading := EntryHeading(containerId);
    assert heading[1..][1..] == [];
    assert Depth(heading[1..]) == 0;
  }

  /** The entry for a non-empty readable table is one JSON value; an empty table leaves one container open: the entry's object, whose property has no value. */
  lemma EntryBalance(db: Database, containerId: string)
    requires EntryPasses(db, containerId)
    ensures !EmptyEntry(db, containerId) ==> WellFormed(AfterTable([], db, containerId).tokens)
    ensures EmptyEntry(db, containerId) ==> Depth(AfterTable([], db, containerId).tokens) == 1
  {
    TableWritten(db, containerId);
    if !EmptyEntry(db, containerId) {
      var table := db.tables[containerId];
      RowsArrayWellFormed(table);
      SingletonObject(DataProperty, RowsArray(table));
      var inner := [StartObject, PropertyName(DataProperty)] + RowsArray(table) + [EndObject];
      SingletonObject(ContainerPrefix + containerId, inner);
      assert FullEntry(db, containerId) == [StartObject, PropertyName(ContainerPrefix + containerId)] + inner + [EndObject];
    } else {
      HeadingDepth(containerId);
    }
  }

  /*
   * The Containers table: null ContainerIds are skipped, every other id
   * gives one entry, in cursor order.
   */

  /** The non-null ContainerIds, in cursor order. */
  function Ids(entries: seq<Option<int32>>): (ids: seq<int32>)
    ensures |ids| <= |entries|
  {
    if |entries| == 0 then []
    else (if entries[0].Some? then [entries[0].value] else []) + Ids(entries[1..])
  }

  lemma {:induction false} IdsMembership(entries: seq<Option<int32>>, id: int32)
    ensures id in Ids(entries) <==> Some(id) in entries
  {
    if |entries| > 0 {
      IdsMembership(entries[1..], id);
      assert entries == [entries[0]] + entries[1..];
    }
  }

  /** Filtering keeps the cursor order: the ids of a + b are those of a, then those of b. */
  lemma {:induction false} IdsConcat(a: seq<Option<int32>>, b: seq<Option<int32>>)
    ensures Ids(a + b) == Ids(a) + Ids(b)
  {
    if |a| == 0 {
      assert a + b == b;
    } else {
      assert (a + b)[0] == a[0];
      assert (a + b)[1..] == a[1..] + b;
      IdsConcat(a[1..], b);
      var h := if a[0].Some? then [a[0].value] else [];
      assert h + (Ids(a[1..]) + Ids(b)) == (h + Ids(a[1..])) + Ids(b);
    }
  }

  /** The entries for ids, one after the other, up to the first exception. */
  function Entries(acc: seq<Token>, db: Database, ids: seq<int32>): Written
    decreases |ids|
  {
    if |ids| == 0 then Written(acc, Pass)
    else
      var e := AfterTable(acc, db, ContainerTableName(ids[0]));
      if e.outcome.Fail? then e else Entries(e.tokens, db, ids[1..])
  }

  lemma IdsStep(entries: seq<Option<int32>>, i: nat)
    requires i < |entries|
    ensures Ids(entries[i..]) == (if entries[i].Some? then [entries[i].value] else []) + Ids(entries[i + 1..])
  {
    assert entries[i..][1..] == entries[i + 1..];
  }

  /** The do-while over the Containers table writes the entries of the non-null ids only, in cursor order. */
  lemma {:induction false} EntriesSkipNulls(acc: seq<Token>, db: Database, entries: seq<Option<int32>>, i: nat)
    requires i <= |entries|
    ensures AfterEntries(acc, db, entries, i) == Entries(acc, db, Ids(entries[i..]))
    decreases |entries| - i
  {
    if i < |entries| {
      IdsStep(entries, i);
      var ids := Ids(entries[i..]);
      if entries[i].None? {
        assert ids == Ids(entries[i + 1..]);
        EntriesSkipNulls(acc, db, entries, i + 1);
      } else {
        assert ids[0] == entries[i].value && ids[1..] == Ids(entries[i + 1..]);
        var e := AfterTable(acc, db, ContainerTableName(entries[i].value));
        if e.outcome.Pass? {
          EntriesSkipNulls(e.tokens, db, entries, i + 1);
        }
      }
    }
  }

  lemma {:induction false} EntriesFrame(acc: seq<Token>, pre: seq<Token>, db: Database, ids: seq<int32>)
    ensures Entries(acc + pre, db, ids) == Shift(acc, Entries(pre, db, ids))
    decreases |ids|
  {
    if |ids| > 0 {
      TableFrame(acc, pre, db, ContainerTableName(ids[0]));
      var e := AfterTable(pre, db, ContainerTableName(ids[0]));
      if e.outcome.Pass? {
        EntriesFrame(acc, e.tokens, db, ids[1..]);
      }
    }
  }

  /** The first entry, then the others if it ended normally. */
  lemma EntriesFirst(db: Database, ids: seq<int32>)
    requires |ids| > 0
    ensures var e := AfterTable([], db, ContainerTableName(ids[0]));
      Entries([], db, ids) == if e.outcome.Fail? then e else Shift(e.tokens, Entries([], db, ids[1..]))
  {
    var e := AfterTable([], db, ContainerTableName(ids[0]));
    if e.outcome.Pass? {
      EntriesFrame(e.tokens, [], db, ids[1..]);
      assert e.tokens + [] == e.tokens;
    }
  }

  /** The entries end normally exactly when every id's table exists and can be read. */
  lemma {:induction false} EntriesPass(db: Database, ids: seq<int32>)
    ensures Entries([], db, ids).outcome.Pass? <==> forall k :: 0 <= k < |ids| ==> EntryPasses(db, ContainerTableName(ids[k]))
  {
    if |ids| > 0 {
      EntriesFirst(db, ids);
      TablePasses(db, ContainerTableName(ids[0]));
      EntriesPass(db, ids[1..]);
      assert forall k :: 1 <= k < |ids| ==> ids[1..][k - 1] == ids[k];
    }
  }

  /** The first false flag. */
  function FirstFalse(flags: seq<bool>): (k: nat)
    requires false in flags
    ensures k < |flags| && !flags[k]
    ensures forall j :: 0 <= j < k ==> flags[j]
  {
    if !flags[0] then 0
    else
      assert flags == [flags[0]] + flags[1..];
      var r := FirstFalse(flags[1..]);
      assert flags[r + 1] == flags[1..][r];
      r + 1
  }

  /** For each id, whether its entry ends normally. */
  function Passing(db: Database, ids: seq<int32>): (flags: seq<bool>)
    ensures |flags| == |ids|
  {
    seq(|ids|, k requires 0 <= k < |ids| => EntryPasses(db, ContainerTableName(ids[k])))
  }

  /** The first id whose entry does not end normally. */
  function FirstFailing(db: Database, ids: seq<int32>): (k: nat)
    requires exists k :: 0 <= k < |ids| && !EntryPasses(db, ContainerTableName(ids[k]))
    ensures k < |ids| && !EntryPasses(db, ContainerTableName(ids[k]))
    ensures forall j :: 0 <= j < k ==> EntryPasses(db, ContainerTableName(ids[j]))
  {
    var flags := Passing(db, ids);
    var k :| 0 <= k < |ids| && !EntryPasses(db, ContainerTableName(ids[k]));
    assert !flags[k];
    var r := FirstFalse(flags);
    assert forall j :: 0 <= j < r ==> flags[j] == EntryPasses(db, ContainerTableName(ids[j]));
    r
  }

  /** How the entries end, as decided by the first one. */
  lemma EntriesFirstOutcome(db: Database, ids: seq<int32>)
    requires |ids| > 0
    ensures var name := ContainerTableName(ids[0]);
      Entries([], db, ids).outcome == if EntryPasses(db, name) then Entries([], db, ids[1..]).outcome else AfterTable([], db, name).outcome
  {
    EntriesFirst(db, ids);
    TablePasses(db, ContainerTableName(ids[0]));
  }

  lemma PassingTail(db: Database, ids: seq<int32>, k: nat)
    requires 0 < k <= |ids|
    requires forall j :: 0 <= j < k ==> EntryPasses(db, ContainerTableName(ids[j]))
    ensures forall j :: 0 <= j < k - 1 ==> EntryPasses(db, ContainerTableName(ids[1..][j]))
  {
    forall j | 0 <= j < k - 1
      ensures EntryPasses(db, ContainerTableName(ids[1..][j]))
    {
      assert ids[1..][j] == ids[j + 1];
    }
  }

  /** An exception ends the entries: the one raised by the table of the first id whose entry fails. */
  lemma {:induction false} EntriesFail(db: Database, ids: seq<int32>, k: nat)
    requires k < |ids| && !EntryPasses(db, ContainerTableName(ids[k]))
    requires forall j :: 0 <= j < k ==> EntryPasses(db, ContainerTableName(ids[j]))
    ensures Entries([], db, ids).outcome == AfterTable([], db, ContainerTableName(ids[k])).outcome
  {
    EntriesFirstOutcome(db, ids);
    if k > 0 {
      var later := ids[1..];
      assert later[k - 1] == ids[k];
      PassingTail(db, ids, k);
      EntriesFail(db, later, k - 1);
    }
  }

  /** One entry per id, in order, each as WriteTableAsJson writes it on its own. */
  function EntryList(db: Database, ids: seq<int32>): seq<Token>
  {
    if |ids| == 0 then [] else AfterTable([], db, ContainerTableName(ids[0])).tokens + EntryList(db, ids[1..])
  }

  lemma {:induction false} EntriesTokens(db: Database, ids: seq<int32>)
    requires Entries([], db, ids).outcome.Pass?
    ensures Entries([], db, ids).tokens == EntryList(db, ids)
  {
    if |ids| > 0 {
      EntriesFirst(db, ids);
      EntriesTokens(db, ids[1..]);
    }
  }

  /** The ids whose tables exist but have no rows. */
  function EmptyCount(db: Database, ids: seq<int32>): nat
  {
    if |ids| == 0 then 0
    else (if EmptyEntry(db, ContainerTableName(ids[0])) then 1 else 0) + EmptyCount(db, ids[1..])
  }

  /** Each entry for an empty table leaves its object and its property open: one level per such table. */
  lemma {:induction false} EntriesDepth(db: Database, ids: seq<int32>)
    requires Entries([], db, ids).outcome.Pass?
    ensures Depth(Entries([], db, ids).tokens) == EmptyCount(db, ids)
  {
    if |ids| > 0 {
      EntriesFirst(db, ids);
      var name := ContainerTableName(ids[0]);
      var e := AfterTable([], db, name);
      TableWritten(db, name);
      EntryBalance(db, name);
      if !EmptyEntry(db, name) {
        WellFormedBalanced(e.tokens);
      }
      EntriesDepth(db, ids[1..]);
      DepthAppend(e.tokens, Entries([], db, ids[1..]).tokens);
    }
  }

  /** Inside an array, a well-formed value written before rest is skipped over. */
  lemma ElementThen(e: seq<Token>, rest: seq<Token>, z: seq<Token>)
    requires WellFormed(e)
    ensures ParseElements(e + rest + z) == ParseElements(rest + z)
  {
    ElementPrefix(e, rest + z);
    assert e + rest + z == e + (rest + z);
  }

  /** With no empty table among them, the entries are skipped over one by one inside an array. */
  lemma {:induction false} EntriesParse(db: Database, ids: seq<int32>, z: seq<Token>)
    requires Entries([], db, ids).outcome.Pass? && EmptyCount(db, ids) == 0
    ensures ParseElements(Entries([], db, ids).tokens + z) == ParseElements(z)
  {
    if |ids| == 0 {
      assert [] + z == z;
    } else {
      EntriesFirst(db, ids);
      var name := ContainerTableName(ids[0]);
      var e := AfterTable([], db, name);
      var rest := Entries([], db, ids[1..]);
      TableWritten(db, name);
      EntryBalance(db, name);
      ElementThen(e.tokens, rest.tokens, z);
      EntriesParse(db, ids[1..], z);
    }
  }
}
