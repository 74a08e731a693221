/**
 * The worked example of a Containers table with rows 1, null and 3, where
 * Container_1 holds one row whose Name column is the text "A" and
 * Container_3 has no rows: what the traversal writes as it stands, and
 * what the corrected traversal writes.
 */
module DumpExample {
  import opened Wrappers
  import opened ColumnTypes
  import opened JsonWriter
  import opened EseDump
  import opened DumpProperties
  import opened DumpDocument
  import opened IntendedDump
  import Decimal
  import Bytes

  /** A Text column (JET_coltyp 10). */
  const NameColumn: Column := Column("Name", 10)

  /** "A" as the engine stores Text: UTF-16, little-endian. */
  const TextA: seq<Bytes.byte> := [0x41, 0x00]

  const Example: Database := Database(
    [Some(1), None, Some(3)],
    map[
      "Container_1" := Table([NameColumn], [map["Name" := Stored(TextA)]]),
      "Container_3" := Table([NameColumn], [])])

  const ExampleRow: seq<Token> := [StartObject, PropertyName("Name"), Value(TextValue(TextA)), EndObject]

  lemma ExampleNames()
    ensures Ids(Example.containers) == [1, 3]
    ensures ContainerTableName(1) == "Container_1" && ContainerTableName(3) == "Container_3"
  {
    assert Example.containers[1..][1..][1..] == [];
    assert Decimal.IntToString(1) == "1";
    assert Decimal.IntToString(3) == "3";
  }

  /** The one row of Container_1 is the object {"Name": "A"}. */
  lemma ExampleRowObject()
    ensures RowReadable([NameColumn], map["Name" := Stored(TextA)])
    ensures RowObject([NameColumn], map["Name" := Stored(TextA)]) == ExampleRow
  {
    var row := map["Name" := Stored(TextA)];
    assert Readable(NameColumn, row);
    assert Members([NameColumn], row, 1) == [];
  }

  lemma ExampleRowsArray()
    ensures TableReadable(Example.tables["Container_1"])
    ensures RowsArray(Example.tables["Container_1"]) == [StartArray] + ExampleRow + [EndArray]
  {
    ExampleRowObject();
    var t := Example.tables["Container_1"];
    assert Objects(t.columns, t.rows, 1) == [];
  }

  const WrittenEntry1: seq<Token> :=
    [StartObject, PropertyName("Container_Container_1"), StartObject, PropertyName("data"), StartArray]
      + ExampleRow + [EndArray, EndObject, EndObject]

  const WrittenEntry3: seq<Token> := [StartObject, PropertyName("Container_Container_3")]

  lemma WrittenEntries()
    ensures AfterTable([], Example, "Container_1") == Written(WrittenEntry1, Pass)
    ensures AfterTable([], Example, "Container_3") == Written(WrittenEntry3, Pass)
    ensures !EmptyEntry(Example, "Container_1") && EmptyEntry(Example, "Container_3")
  {
    ExampleRowsArray();
    TableWritten(Example, "Container_1");
    TableWritten(Example, "Container_3");
    assert ContainerPrefix + "Container_1" == "Container_Container_1";
    assert ContainerPrefix + "Container_3" == "Container_Container_3";
  }

  lemma WrittenList()
    ensures forall id :: Some(id) in Example.containers ==> EntryPasses(Example, ContainerTableName(id))
    ensures EntryList(Example, Ids(Example.containers)) == WrittenEntry1 + WrittenEntry3
    ensures EmptyCount(Example, Ids(Example.containers)) == 1
  {
    ExampleNames();
    WrittenEntries();
    TableWritten(Example, "Container_1");
    TableWritten(Example, "Container_3");
    forall id | Some(id) in Example.containers
      ensures EntryPasses(Example, ContainerTableName(id))
    {
      assert id == 1 || id == 3;
    }
    assert [1, 3][1..] == [3] && [1, 3][0] == 1;
    assert [3][1..] == [] && [3][0] == 3;
    assert EntryList(Example, [3]) == WrittenEntry3 + EntryList(Example, []);
    assert EntryList(Example, [1, 3]) == WrittenEntry1 + EntryList(Example, [3]);
    assert WrittenEntry3 + [] == WrittenEntry3;
    assert EmptyCount(Example, [3]) == 1 + EmptyCount(Example, []);
    assert EmptyCount(Example, [1, 3]) == 0 + EmptyCount(Example, [3]);
  }

  /**
   * As written, the example ends normally but names each entry
   * "Container_Container_<id>" and leaves the entry for the empty
   * Container_3 open, so the document is not well-formed.
   */
  lemma WrittenExample()
    ensures Dump(Example) == Written(DumpHeader + WrittenEntry1 + WrittenEntry3 + [EndArray, EndObject], Pass)
    ensures !WellFormed(Dump(Example).tokens)
  {
    WrittenList();
    DumpPassIff(Example);
    DumpShape(Example);
    assert DumpHeader + (WrittenEntry1 + WrittenEntry3) == DumpHeader + WrittenEntry1 + WrittenEntry3;
    DumpWellFormedIff(Example);
  }

  const IntendedEntry1: seq<Token> :=
    [StartObject, PropertyName("Container_1"), StartObject, PropertyName("data"), StartArray]
      + ExampleRow + [EndArray, EndObject, EndObject]

  const IntendedEntry3: seq<Token> :=
    [StartObject, PropertyName("Container_3"), StartObject, PropertyName("data"), StartArray, EndArray, EndObject, EndObject]

  lemma IntendedEntriesOfExample()
    ensures IntendedTable([], Example, "Container_1") == Written(IntendedEntry1, Pass)
    ensures IntendedTable([], Example, "Container_3") == Written(IntendedEntry3, Pass)
  {
    ExampleRowsArray();
    IntendedTableWritten(Example, "Container_1");
    IntendedEmptyTable(Example, "Container_3");
  }

  lemma IntendedListOfExample()
    ensures IntendedEntries([], Example, Ids(Example.containers)) == Written(IntendedEntry1 + IntendedEntry3, Pass)
  {
    ExampleNames();
    IntendedEntriesOfExample();
    IntendedEntriesFirst(Example, [1, 3]);
    assert [1, 3][1..] == [3];
    IntendedEntriesFirst(Example, [3]);
    assert [3][1..] == [];
    assert IntendedEntry3 + [] == IntendedEntry3;
  }

  /** The corrected traversal writes {"containers":[{"Container_1":{"data":[{"Name":"A"}]}},{"Container_3":{"data":[]}}]}. */
  lemma IntendedExample()
    ensures IntendedDumpOf(Example) == Written(DumpHeader + IntendedEntry1 + IntendedEntry3 + [EndArray, EndObject], Pass)
    ensures WellFormed(IntendedDumpOf(Example).tokens)
  {
    IntendedListOfExample();
    IntendedDumpEntries(Example);
    assert DumpHeader + (IntendedEntry1 + IntendedEntry3) == DumpHeader + IntendedEntry1 + IntendedEntry3;
    IntendedWellFormed(Example);
  }
}
