/**
 * What OutputDatabaseAsJson leaves in the writer as a whole: nothing for
 * an empty Containers table, otherwise {"containers": [entries]} with one
 * entry per non-null ContainerId in cursor order, or the first exception.
 * When the dump ends normally, the calls spell one JSON document exactly
 * when the Containers table has a row and no visited table is empty.
 */
module DumpDocument {
  import opened Wrappers
  import opened ColumnTypes
  import opened JsonWriter
  import opened EseDump
  import opened DumpProperties
  import Decimal

  /** The ContainerIds the dump visits: the non-null ones, in cursor order. */
  function Visited(db: Database): seq<int32>
  {
    Ids(db.containers)
  }

  /** The dump is the header, then the entries, then the closing tokens if they all ended normally. */
  lemma DumpEntries(db: Database)
    requires |db.containers| > 0
    ensures var e := Entries([], db, Visited(db));
      Dump(db) == if e.outcome.Fail? then Shift(DumpHeader, e) else Written(DumpHeader + e.tokens + [EndArray, EndObject], Pass)
  {
    assert db.containers[0..] == db.containers;
    EntriesSkipNulls(DumpHeader, db, db.containers, 0);
    assert DumpHeader + [] == DumpHeader;
    EntriesFrame(DumpHeader, [], db, Visited(db));
    var e := Entries([], db, Visited(db));
    assert DumpHeader + e.tokens + [EndArray] + [EndObject] == DumpHeader + e.tokens + [EndArray, EndObject];
  }

  /** The writer receives no token at all exactly when the Containers table has no rows. */
  lemma DumpEmpty(db: Database)
    ensures Dump(db).tokens == [] <==> |db.containers| == 0
    ensures |db.containers| == 0 ==> Dump(db).outcome.Pass?
  {
    if |db.containers| > 0 {
      DumpEntries(db);
      assert Dump(db).tokens[0] == StartObject;
    }
  }

  /** The dump ends normally exactly when every non-null ContainerId names a table whose cells can all be read. */
  lemma DumpPassIff(db: Database)
    ensures Dump(db).outcome.Pass? <==>
      forall id :: Some(id) in db.containers ==> EntryPasses(db, ContainerTableName(id))
  {
    var ids := Visited(db);
    forall id
      ensures Some(id) in db.containers <==> id in ids
    {
      IdsMembership(db.containers, id);
    }
    if |db.containers| > 0 {
      DumpEntries(db);
      EntriesPass(db, ids);
    }
  }

  /**
   * A dump that fails raises the exception of the first visited id whose
   * table is missing or holds an unreadable cell; a missing table is
   * reported by its name.
   */
  lemma DumpFailure(db: Database)
    requires Dump(db).outcome.Fail?
    ensures exists k :: 0 <= k < |Visited(db)| && !EntryPasses(db, ContainerTableName(Visited(db)[k]))
    ensures var ids := Visited(db);
      var k := FirstFailing(db, ids);
      var name := ContainerTableName(ids[k]);
      Dump(db).outcome == AfterTable([], db, name).outcome &&
      (name !in db.tables ==> Dump(db).outcome == Fail(TableNotFound(name)))
  {
    var ids := Visited(db);
    DumpEntries(db);
    EntriesPass(db, ids);
    EntriesFail(db, ids, FirstFailing(db, ids));
    TableWritten(db, ContainerTableName(ids[FirstFailing(db, ids)]));
  }

  /** A dump that ends normally: the header, one entry per visited id in cursor order, and the closing tokens. */
  lemma DumpShape(db: Database)
    requires Dump(db).outcome.Pass? && |db.containers| > 0
    ensures Dump(db).tokens == DumpHeader + EntryList(db, Visited(db)) + [EndArray, EndObject]
  {
    DumpEntries(db);
    EntriesTokens(db, Visited(db));
  }

  /** The entry for a ContainerId is named with the prefix twice, whatever its table holds. */
  lemma EntryNameDoubled(db: Database, id: int32)
    ensures var t := AfterTable([], db, ContainerTableName(id)).tokens;
      |t| >= 2 && t[..2] == [StartObject, PropertyName("Container_Container_" + Decimal.IntToString(id as int))]
  {
    EntryStartsWithHeading(db, ContainerTableName(id));
    DoublePrefix(Decimal.IntToString(id as int));
  }

  lemma DoublePrefix(digits: string)
    ensures ContainerPrefix + (ContainerPrefix + digits) == "Container_Container_" + digits
  {
    assert ContainerPrefix + ContainerPrefix == "Container_Container_";
  }

  /** Distinct ContainerIds open distinct tables. */
  lemma DistinctTables(a: int32, b: int32)
    requires a != b
    ensures ContainerTableName(a) != ContainerTableName(b)
  {
    var pa := ContainerPrefix + Decimal.IntToString(a as int);
    var pb := ContainerPrefix + Decimal.IntToString(b as int);
    if pa == pb {
      assert pa[|ContainerPrefix|..] == Decimal.IntToString(a as int);
      assert pb[|ContainerPrefix|..] == Decimal.IntToString(b as int);
      Decimal.IntToStringInjective(a as int, b as int);
    }
  }

  /** The header and the closing tokens open and close two containers around c. */
  lemma EnclosedDepth(c: seq<Token>)
    ensures Depth(DumpHeader + c + [EndArray, EndObject]) == Depth(c)
  {
    DepthAppend(DumpHeader, c);
    DepthAppend(DumpHeader + c, [EndArray, EndObject]);
    var h := DumpHeader;
    assert h[1..][1..][1..] == [];
    assert Depth(h[1..][1..]) == 1;
    assert Depth(h[1..]) == 1;
    assert Depth(h) == 2;
    var t := [EndArray, EndObject];
    assert t[1..][1..] == [];
    assert Depth(t[1..]) == -1;
  }

  /** {"containers": [c]} is one JSON document when the array skips over c. */
  lemma EnclosedWellFormed(c: seq<Token>)
    requires ParseElements(c + [EndArray]) == ParseElements([EndArray])
    ensures WellFormed(DumpHeader + c + [EndArray, EndObject])
  {
    ArrayOf(c);
    SingletonObject(ContainersProperty, [StartArray] + c + [EndArray]);
    assert DumpHeader + c + [EndArray, EndObject]
        == [StartObject, PropertyName(ContainersProperty)] + ([StartArray] + c + [EndArray]) + [EndObject];
  }

  /** A dump that ends normally leaves one container open per visited empty table. */
  lemma DumpDepth(db: Database)
    requires Dump(db).outcome.Pass?
    ensures Depth(Dump(db).tokens) == EmptyCount(db, Visited(db))
  {
    if |db.containers| > 0 {
      DumpEntries(db);
      EntriesDepth(db, Visited(db));
      EnclosedDepth(Entries([], db, Visited(db)).tokens);
    }
  }

  /** With a Containers row and no visited empty table, the dump is {"containers": [entries]}, one JSON document. */
  lemma DumpWellFormed(db: Database)
    requires Dump(db).outcome.Pass? && |db.containers| > 0 && EmptyCount(db, Visited(db)) == 0
    ensures WellFormed(Dump(db).tokens)
  {
    DumpEntries(db);
    EntriesParse(db, Visited(db), [EndArray]);
    EnclosedWellFormed(Entries([], db, Visited(db)).tokens);
  }

  /**
   * A dump that ends normally is one JSON document exactly when the
   * Containers table has a row and no visited table is empty.
   */
  lemma DumpWellFormedIff(db: Database)
    requires Dump(db).outcome.Pass?
    ensures WellFormed(Dump(db).tokens) <==> |db.containers| > 0 && EmptyCount(db, Visited(db)) == 0
  {
    if |db.containers| == 0 {
      EmptyNotWellFormed();
    } else if EmptyCount(db, Visited(db)) == 0 {
      DumpWellFormed(db);
    } else {
      DumpDepth(db);
      if WellFormed(Dump(db).tokens) {
        WellFormedBalanced(Dump(db).tokens);
      }
    }
  }
}
