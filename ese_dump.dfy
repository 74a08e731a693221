/**
 * The dump traversal of ESEDatabase: the Containers table is read row by
 * row, every non-null ContainerId names a per-container table, and each of
 * those tables is written row by row, column by column, to the JSON writer.
 *
 * The engine is abstracted to its tables: the Containers table is the
 * sequence of its ContainerId cells in cursor order, every other table is
 * an ordered column list and a sequence of rows. What each method of the
 * source leaves in the writer is specified by a function from the tokens
 * the writer held before to the tokens it holds after, with the exception,
 * if any, that ended the method; each method is proved to do exactly that.
 */
module EseDump {
  import opened Wrappers
  import opened ColumnTypes
  import opened JsonWriter
  import Decimal

  newtype int32 = x: int | -0x8000_0000 <= x < 0x8000_0000

  /** A column as the column dictionary and JetGetColumnInfo report it: its name and JET_coltyp code. */
  datatype Column = Column(name: string, coltyp: int)

  /** A row: the cell of each column, by column name; a column missing here holds null. */
  type Row = map<string, Cell>

  datatype Table = Table(columns: seq<Column>, rows: seq<Row>)

  /** The database: the ContainerId of each Containers row in cursor order, and the tables by name. */
  datatype Database = Database(containers: seq<Option<int32>>, tables: map<string, Table>)

  function CellOf(row: Row, column: Column): Cell
  {
    if column.name in row then row[column.name] else NullCell
  }

  /** The exceptions that end a dump: a table that cannot be opened, a cell an accessor cannot read. */
  datatype DumpError = TableNotFound(name: string) | InvalidColumn(column: string, width: nat)

  datatype Outcome = Pass | Fail(error: DumpError)

  /** The writer's tokens after a piece of the traversal, and how that piece ended. */
  datatype Written = Written(tokens: seq<Token>, outcome: Outcome)

  const ContainersProperty: string := "containers"
  const DataProperty: string := "data"
  const ContainerPrefix: string := "Container_"

  /** The interpolated table name $"Container_{containerId}", with the id in the invariant culture. */
  function ContainerTableName(id: int32): (name: string)
    ensures |name| > |ContainerPrefix| && name[..|ContainerPrefix|] == ContainerPrefix
  {
    ContainerPrefix + Decimal.IntToString(id as int)
  }

  /** WriteValue: one value for the cell, or the accessor's exception with nothing written. */
  function AfterValue(acc: seq<Token>, column: Column, row: Row): (w: Written)
    ensures w.outcome.Pass? ==> |w.tokens| == |acc| + 1 && w.tokens[..|acc|] == acc && w.tokens[|acc|].Value?
    ensures w.outcome.Fail? ==> w.tokens == acc && w.outcome.error.InvalidColumn? && w.outcome.error.column == column.name
  {
    match Decode(TagOf(column.coltyp), CellOf(row, column))
    case Success(v) => Written(acc + [Value(v)], Pass)
    case Failure(w) => Written(acc, Fail(InvalidColumn(column.name, w)))
  }

  /** The foreach over the columns from column i on: a property name and its value for each. */
  function AfterColumns(acc: seq<Token>, columns: seq<Column>, row: Row, i: nat): (w: Written)
    requires i <= |columns|
    ensures |acc| <= |w.tokens| && w.tokens[..|acc|] == acc
    ensures w.outcome.Fail? ==> w.outcome.error.InvalidColumn?
    ensures w.outcome.Pass? ==> |w.tokens| == |acc| + 2 * (|columns| - i)
    decreases |columns| - i
  {
    if i == |columns| then Written(acc, Pass)
    else
      var w := AfterValue(acc + [PropertyName(columns[i].name)], columns[i], row);
      if w.outcome.Fail? then w else AfterColumns(w.tokens, columns, row, i + 1)
  }

  /** One pass of the do-while in WriteRowsAsJson: the object for one row. */
  function AfterRow(acc: seq<Token>, columns: seq<Column>, row: Row): (w: Written)
    ensures |acc| <= |w.tokens| && w.tokens[..|acc|] == acc
    ensures w.outcome.Fail? ==> w.outcome.error.InvalidColumn?
    ensures w.outcome.Pass? ==> |w.tokens| == |acc| + 2 * |columns| + 2
  {
    var w := AfterColumns(acc + [StartObject], columns, row, 0);
    if w.outcome.Fail? then w else Written(w.tokens + [EndObject], Pass)
  }

  /** The do-while over the rows from row i on. */
  function AfterRows(acc: seq<Token>, columns: seq<Column>, rows: seq<Row>, i: nat): (w: Written)
    requires i <= |rows|
    ensures |acc| <= |w.tokens| && w.tokens[..|acc|] == acc
    ensures w.outcome.Fail? ==> w.outcome.error.InvalidColumn?
    decreases |rows| - i
  {
    if i == |rows| then Written(acc, Pass)
    else
      var w := AfterRow(acc, columns, rows[i]);
      if w.outcome.Fail? then w else AfterRows(w.tokens, columns, rows, i + 1)
  }

  /** WriteRowsAsJson: an array with one object per row. */
  function AfterRowsArray(acc: seq<Token>, table: Table): (w: Written)
    ensures |acc| <= |w.tokens| && w.tokens[..|acc|] == acc
    ensures w.outcome.Fail? ==> w.outcome.error.InvalidColumn?
  {
    var w := AfterRows(acc + [StartArray], table.columns, table.rows, 0);
    if w.outcome.Fail? then w else Written(w.tokens + [EndArray], Pass)
  }

  /**
   * WriteTableAsJson(containerId): the property name is the prefix followed
   * by the argument, which already carries the prefix; the table opened is
   * the argument itself. An empty table returns right after the property name.
   */
  function AfterTable(acc: seq<Token>, db: Database, containerId: string): (w: Written)
    ensures |acc| <= |w.tokens| && w.tokens[..|acc|] == acc
    ensures w.outcome == Fail(TableNotFound(containerId)) <==> containerId !in db.tables
    ensures w.outcome.Fail? && containerId in db.tables ==> w.outcome.error.InvalidColumn?
  {
    var heading := acc + [StartObject] + [PropertyName(ContainerPrefix + containerId)];
    if containerId !in db.tables then Written(heading, Fail(TableNotFound(containerId)))
    else if |db.tables[containerId].rows| == 0 then Written(heading, Pass)
    else
      var w := AfterRowsArray(heading + [StartObject] + [PropertyName(DataProperty)], db.tables[containerId]);
      if w.outcome.Fail? then w else Written(w.tokens + [EndObject] + [EndObject], Pass)
  }

  /** One pass of the do-while over the Containers table: nothing for a null id. */
  function AfterEntry(acc: seq<Token>, db: Database, entry: Option<int32>): (w: Written)
    ensures |acc| <= |w.tokens| && w.tokens[..|acc|] == acc
    ensures entry.None? ==> w.tokens == acc && w.outcome.Pass?
  {
    match entry
    case None => Written(acc, Pass)
    case Some(id) => AfterTable(acc, db, ContainerTableName(id))
  }

  /** The do-while over the Containers table from row i on. */
  function AfterEntries(acc: seq<Token>, db: Database, entries: seq<Option<int32>>, i: nat): (w: Written)
    requires i <= |entries|
    ensures |acc| <= |w.tokens| && w.tokens[..|acc|] == acc
    decreases |entries| - i
  {
    if i == |entries| then Written(acc, Pass)
    else
      var w := AfterEntry(acc, db, entries[i]);
      if w.outcome.Fail? then w else AfterEntries(w.tokens, db, entries, i + 1)
  }

  const DumpHeader: seq<Token> := [StartObject, PropertyName(ContainersProperty), StartArray]

  /** OutputDatabaseAsJson on a fresh writer: nothing at all when the Containers table has no rows. */
  function Dump(db: Database): (w: Written)
    ensures |db.containers| > 0 ==> |DumpHeader| <= |w.tokens| && w.tokens[..|DumpHeader|] == DumpHeader
    ensures |db.containers| == 0 ==> w == Written([], Pass)
  {
    if |db.containers| == 0 then Written([], Pass)
    else
      var w := AfterEntries(DumpHeader, db, db.containers, 0);
      if w.outcome.Fail? then w else Written(w.tokens + [EndArray] + [EndObject], Pass)
  }

  /** The database a dump reads, with the writer calls it makes. */
  class EseDatabase {
    const db: Database

    constructor (db: Database)
      ensures this.db == db
    {
      this.db := db;
    }

    /**
     * Writes the whole database to a fresh writer and returns what the
     * writer received and whether the dump ended normally.
     */
    method OutputDatabaseAsJson() returns (tokens: seq<Token>, outcome: Outcome)
      ensures Written(tokens, outcome) == Dump(db)
    {
      var writer := new Writer();
      if |db.containers| == 0 {
        return writer.tokens, Pass;
      }
      writer.WriteStartObject();
      writer.WritePropertyName(ContainersProperty);
      writer.WriteStartArray();
      assert writer.tokens == DumpHeader;
      var i := 0;
      while i < |db.containers|
        invariant 0 <= i <= |db.containers|
        invariant AfterEntries(writer.tokens, db, db.containers, i) == AfterEntries(DumpHeader, db, db.containers, 0)
      {
        var entry := db.containers[i];
        outcome := Pass;
        if entry.Some? {
          outcome := WriteTableAsJson(writer, ContainerTableName(entry.value));
        }
        if outcome.Fail? {
          return writer.tokens, outcome;
        }
        i := i + 1;
      }
      writer.WriteEndArray();
      writer.WriteEndObject();
      return writer.tokens, Pass;
    }

    method WriteTableAsJson(writer: Writer, containerId: string) returns (outcome: Outcome)
      modifies writer
      ensures Written(writer.tokens, outcome) == AfterTable(old(writer.tokens), db, containerId)
    {
      writer.WriteStartObject();
      writer.WritePropertyName(ContainerPrefix + containerId);
      if containerId !in db.tables {
        return Fail(TableNotFound(containerId));
      }
      var table := db.tables[containerId];
      if |table.rows| == 0 {
        return Pass;
      }
      writer.WriteStartObject();
      writer.WritePropertyName(DataProperty);
      outcome := WriteRowsAsJson(writer, table);
      if outcome.Fail? {
        return;
      }
      writer.WriteEndObject();
      writer.WriteEndObject();
    }

    method WriteRowsAsJson(writer: Writer, table: Table) returns (outcome: Outcome)
      requires |table.rows| > 0
      modifies writer
      ensures Written(writer.tokens, outcome) == AfterRowsArray(old(writer.tokens), table)
    {
      var columns := table.columns;
      writer.WriteStartArray();
      ghost var start := writer.tokens;
      var r := 0;
      while r < |table.rows|
        invariant 0 <= r <= |table.rows|
        invariant AfterRows(writer.tokens, columns, table.rows, r) == AfterRows(start, columns, table.rows, 0)
      {
        outcome := WriteRowAsJson(writer, columns, table.rows[r]);
        if outcome.Fail? {
          return;
        }
        r := r + 1;
      }
      writer.WriteEndArray();
      outcome := Pass;
    }

    /** One pass of the do-while in WriteRowsAsJson: the object for one row. */
    method WriteRowAsJson(writer: Writer, columns: seq<Column>, row: Row) returns (outcome: Outcome)
      modifies writer
      ensures Written(writer.tokens, outcome) == AfterRow(old(writer.tokens), columns, row)
    {
      writer.WriteStartObject();
      ghost var start := writer.tokens;
      var c := 0;
      while c < |columns|
        invariant 0 <= c <= |columns|
        invariant AfterColumns(writer.tokens, columns, row, c) == AfterColumns(start, columns, row, 0)
      {
        writer.WritePropertyName(columns[c].name);
        outcome := WriteValue(writer, columns[c], row);
        if outcome.Fail? {
          return;
        }
        c := c + 1;
      }
      writer.WriteEndObject();
      outcome := Pass;
    }

    /** Decodes the row's cell for the column and writes it. */
    method WriteValue(writer: Writer, column: Column, row: Row) returns (outcome: Outcome)
      modifies writer
      ensures Written(writer.tokens, outcome) == AfterValue(old(writer.tokens), column, row)
    {
      var tag := TagOf(column.coltyp);
      match Decode(tag, CellOf(row, column)) {
        case Success(v) =>
          writer.WriteValue(v);
          outcome := Pass;
        case Failure(w) =>
          outcome := Fail(InvalidColumn(column.name, w));
      }
    }
  }
}
