/**
 * The traversal as it was evidently meant to behave: each entry is named
 * by its table's name, an empty table still gets {"data": []}, and an
 * empty Containers table still gets {"containers": []}. Rows and values
 * are written exactly as before. Every dump of this kind that ends
 * normally is one JSON document.
 */
module IntendedDump {
  import opened Wrappers
  import opened ColumnTypes
  import opened JsonWriter
  import opened EseDump
  import opened DumpProperties
  import opened DumpDocument
  import Decimal

  /** The entry for one table: {tableName: {"data": [rows]}}, whether or not the table has rows. */
  function IntendedTable(acc: seq<Token>, db: Database, tableName: string): (w: Written)
    ensures |acc| <= |w.tokens| && w.tokens[..|acc|] == acc
    ensures w.outcome == Fail(TableNotFound(tableName)) <==> tableName !in db.tables
    ensures w.outcome.Fail? && tableName in db.tables ==> w.outcome.error.InvalidColumn?
  {
    var heading := acc + [StartObject, PropertyName(tableName)];
    if tableName !in db.tables then Written(heading, Fail(TableNotFound(tableName)))
    else
      var w := AfterRowsArray(heading + [StartObject, PropertyName(DataProperty)], db.tables[tableName]);
      if w.outcome.Fail? then w else Written(w.tokens + [EndObject, EndObject], Pass)
  }

  function IntendedEntries(acc: seq<Token>, db: Database, ids: seq<int32>): (w: Written)
    ensures |acc| <= |w.tokens| && w.tokens[..|acc|] == acc
    decreases |ids|
  {
    if |ids| == 0 then Written(acc, Pass)
    else
      var e := IntendedTable(acc, db, ContainerTableName(ids[0]));
      if e.outcome.Fail? then e else IntendedEntries(e.tokens, db, ids[1..])
  }

  /** The corrected dump: the header is written even when the Containers table has no rows. */
  function IntendedDumpOf(db: Database): (w: Written)
    ensures |DumpHeader| <= |w.tokens| && w.tokens[..|DumpHeader|] == DumpHeader
    ensures w.outcome.Pass? ==> |w.tokens| >= |DumpHeader| + 2 && w.tokens[|w.tokens| - 2..] == [EndArray, EndObject]
  {
    var w := IntendedEntries(DumpHeader, db, Ids(db.containers));
    if w.outcome.Fail? then w else Written(w.tokens + [EndArray, EndObject], Pass)
  }

  /** The entry for a readable table, standing alone. */
  function IntendedEntry(db: Database, tableName: string): seq<Token>
    requires EntryPasses(db, tableName)
  {
    [StartObject, PropertyName(tableName), StartObject, PropertyName(DataProperty)]
      + RowsArray(db.tables[tableName]) + [EndObject, EndObject]
  }

  lemma IntendedTableFrame(acc: seq<Token>, pre: seq<Token>, db: Database, tableName: string)
    ensures IntendedTable(acc + pre, db, tableName) == Shift(acc, IntendedTable(pre, db, tableName))
  {
    var heading := pre + [StartObject, PropertyName(tableName)];
    assert (acc + pre) + [StartObject, PropertyName(tableName)] == acc + heading;
    if tableName in db.tables {
      var inner := heading + [StartObject, PropertyName(DataProperty)];
      assert (acc + heading) + [StartObject, PropertyName(DataProperty)] == acc + inner;
      RowsArrayFrame(acc, inner, db.tables[tableName]);
      var w := AfterRowsArray(inner, db.tables[tableName]);
      assert (acc + w.tokens) + [EndObject, EndObject] == acc + (w.tokens + [EndObject, EndObject]);
    }
  }

  /** The corrected entry ends normally exactly when the as-written one does, and is then the full entry. */
  lemma IntendedTableWritten(db: Database, tableName: string)
    ensures tableName !in db.tables ==>
      IntendedTable([], db, tableName) == Written([StartObject, PropertyName(tableName)], Fail(TableNotFound(tableName)))
    ensures IntendedTable([], db, tableName).outcome.Pass? <==> EntryPasses(db, tableName)
    ensures EntryPasses(db, tableName) ==> IntendedTable([], db, tableName).tokens == IntendedEntry(db, tableName)
  {
    var heading := [] + [StartObject, PropertyName(tableName)];
    assert heading == [StartObject, PropertyName(tableName)];
    if tableName in db.tables {
      var table := db.tables[tableName];
      var inner := heading + [StartObject, PropertyName(DataProperty)];
      RowsArrayWritten(inner, table);
      if TableReadable(table) {
        assert inner + RowsArray(table) + [EndObject, EndObject] == IntendedEntry(db, tableName);
      }
    }
  }

  /** Every corrected entry that ends normally is one JSON value, an empty table included. */
  lemma IntendedEntryWellFormed(db: Database, tableName: string)
    requires EntryPasses(db, tableName)
    ensures WellFormed(IntendedEntry(db, tableName))
  {
    var table := db.tables[tableName];
    RowsArrayWellFormed(table);
    SingletonObject(DataProperty, RowsArray(table));
    var inner := [StartObject, PropertyName(DataProperty)] + RowsArray(table) + [EndObject];
    SingletonObject(tableName, inner);
    assert IntendedEntry(db, tableName) == [StartObject, PropertyName(tableName)] + inner + [EndObject];
  }

  /** An empty table now gets {tableName: {"data": []}}. */
  lemma IntendedEmptyTable(db: Database, tableName: string)
    requires EmptyEntry(db, tableName)
    ensures IntendedTable([], db, tableName) == Written(
      [StartObject, PropertyName(tableName), StartObject, PropertyName(DataProperty), StartArray, EndArray, EndObject, EndObject], Pass)
  {
    IntendedTableWritten(db, tableName);
    assert TableReadable(db.tables[tableName]);
    assert Objects(db.tables[tableName].columns, db.tables[tableName].rows, 0) == [];
  }

  /** The entry for a ContainerId is named by the table that is opened for it. */
  lemma IntendedEntryName(db: Database, id: int32)
    ensures var t := IntendedTable([], db, ContainerTableName(id)).tokens;
      |t| >= 2 && t[..2] == [StartObject, PropertyName("Container_" + Decimal.IntToString(id as int))]
  {
    var name := ContainerTableName(id);
    if name in db.tables {
      var pre := [] + [StartObject, PropertyName(name)] + [StartObject, PropertyName(DataProperty)];
      assert pre + [] == pre;
      RowsArrayFrame(pre, [], db.tables[name]);
    }
  }

  lemma {:induction false} IntendedEntriesFrame(acc: seq<Token>, pre: seq<Token>, db: Database, ids: seq<int32>)
    ensures IntendedEntries(acc + pre, db, ids) == Shift(acc, IntendedEntries(pre, db, ids))
    decreases |ids|
  {
    if |ids| > 0 {
      IntendedTableFrame(acc, pre, db, ContainerTableName(ids[0]));
      var e := IntendedTable(pre, db, ContainerTableName(ids[0]));
      if e.outcome.Pass? {
        IntendedEntriesFrame(acc, e.tokens, db, ids[1..]);
      }
    }
  }

  lemma IntendedEntriesFirst(db: Database, ids: seq<int32>)
    requires |ids| > 0
    ensures var e := IntendedTable([], db, ContainerTableName(ids[0]));
      IntendedEntries([], db, ids) == if e.outcome.Fail? then e else Shift(e.tokens, IntendedEntries([], db, ids[1..]))
  {
    var e := IntendedTable([], db, ContainerTableName(ids[0]));
    if e.outcome.Pass? {
      IntendedEntriesFrame(e.tokens, [], db, ids[1..]);
      assert e.tokens + [] == e.tokens;
    }
  }

  lemma {:induction false} IntendedEntriesPass(db: Database, ids: seq<int32>)
    ensures IntendedEntries([], db, ids).outcome.Pass? <==> forall k :: 0 <= k < |ids| ==> EntryPasses(db, ContainerTableName(ids[k]))
  {
    if |ids| > 0 {
      IntendedEntriesFirst(db, ids);
      IntendedTableWritten(db, ContainerTableName(ids[0]));
      IntendedEntriesPass(db, ids[1..]);
      assert forall k :: 1 <= k < |ids| ==> ids[1..][k - 1] == ids[k];
    }
  }

  /** The corrected entries are skipped over one by one inside an array. */
  lemma {:induction false} IntendedEntriesParse(db: Database, ids: seq<int32>, z: seq<Token>)
    requires IntendedEntries([], db, ids).outcome.Pass?
    ensures ParseElements(IntendedEntries([], db, ids).tokens + z) == ParseElements(z)
  {
    if |ids| == 0 {
      assert [] + z == z;
    } else {
      IntendedEntriesFirst(db, ids);
      var name := ContainerTableName(ids[0]);
      var e := IntendedTable([], db, name);
      var rest := IntendedEntries([], db, ids[1..]);
      IntendedTableWritten(db, name);
      IntendedEntryWellFormed(db, name);
      ElementThen(e.tokens, rest.tokens, z);
      IntendedEntriesParse(db, ids[1..], z);
    }
  }

  /** The corrected dump is the header, the entries and the closing tokens. */
  lemma IntendedDumpEntries(db: Database)
    ensures var e := IntendedEntries([], db, Ids(db.containers));
      IntendedDumpOf(db) == if e.outcome.Fail? then Shift(DumpHeader, e) else Written(DumpHeader + e.tokens + [EndArray, EndObject], Pass)
  {
    assert DumpHeader + [] == DumpHeader;
    IntendedEntriesFrame(DumpHeader, [], db, Ids(db.containers));
    var e := IntendedEntries([], db, Ids(db.containers));
    assert (DumpHeader + e.tokens) + [EndArray, EndObject] == DumpHeader + e.tokens + [EndArray, EndObject];
  }

  /** The corrected dump ends normally under the same condition as the as-written one. */
  lemma IntendedPassIff(db: Database)
    ensures IntendedDumpOf(db).outcome.Pass? <==> Dump(db).outcome.Pass?
  {
    var ids := Ids(db.containers);
    IntendedDumpEntries(db);
    IntendedEntriesPass(db, ids);
    DumpPassIff(db);
    forall id
      ensures Some(id) in db.containers <==> id in ids
    {
      IdsMembership(db.containers, id);
    }
  }

  /** Every corrected dump that ends normally is one JSON document. */
  lemma IntendedWellFormed(db: Database)
    requires IntendedDumpOf(db).outcome.Pass?
    ensures WellFormed(IntendedDumpOf(db).tokens)
  {
    IntendedDumpEntries(db);
    IntendedEntriesParse(db, Ids(db.containers), [EndArray]);
    EnclosedWellFormed(IntendedEntries([], db, Ids(db.containers)).tokens);
  }

  /** An empty Containers table now gives {"containers": []}. */
  lemma IntendedNoContainers(db: Database)
    requires |db.containers| == 0
    ensures IntendedDumpOf(db) == Written([StartObject, PropertyName(ContainersProperty), StartArray, EndArray, EndObject], Pass)
    ensures WellFormed(IntendedDumpOf(db).tokens)
  {
    IntendedWellFormed(db);
  }
}
