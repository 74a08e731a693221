# ESE database JSON dump, modelled in Dafny

`ESEDatabase` (ESEDump.Core/ESEDatabase.cs) opens an Extensible Storage
Engine database read-only and streams it to a `JsonTextWriter`. It reads
the `Containers` table row by row. It skips rows whose `ContainerId` is
null. For every other id it opens the table `Container_<id>` and writes
one JSON object per row, with one property per column. The value of each
property comes from a switch over the column's `JET_coltyp`.

The model has these parts:

- **ColumnTypes** (column_types.dfy) is the switch of `WriteValue`.
  - A `Tag` datatype has one arm per listed `JET_coltyp` code and `Other(code)` for the rest.
  - `RetrievalOf` gives the interop accessor of each arm, and `Decode` gives what the accessor hands the writer.
  - Fixed-width integers are read little-endian (**Bytes**, bytes.dfy).
  - Binaries are rendered the way `BitConverter.ToString` renders them (**Hex**, hex.dfy).
- **JsonWriter** (json_writer.dfy) is the writer.
  - It is a class whose `tokens` field records the calls made on it.
  - A token grammar (`ParseValue`, `ParseMembers`, `ParseElements`) says when the tokens spell exactly one JSON value.
- **EseDump** (ese_dump.dfy) is the traversal.
  - The class `EseDatabase` has the methods `OutputDatabaseAsJson`, `WriteTableAsJson`, `WriteRowsAsJson`, `WriteRowAsJson` (one pass of the row loop) and `WriteValue`. Each has the source's loops and early returns.
  - Each method is proved to leave in the writer exactly what a specification function (`Dump`, `AfterTable`, …) computes from what the writer held before, with the exception, if any, that ended it.
  - The interpolated `$"Container_{containerId}"` uses **Decimal** (decimal.dfy).
- **DumpProperties** and **DumpDocument** (dump_properties.dfy, dump_document.dfy) state what those functions mean:
  - the writer only appends;
  - each row is an object with one property per column, in column order;
  - a missing table or an unreadable cell stops everything at the first one;
  - null ids are skipped;
  - when the dump ends normally, the writer calls spell one JSON document exactly when the Containers table has a row and no visited table is empty.
- **IntendedDump** (intended_dump.dfy) is the traversal as it was evidently meant to behave, and **IntendedDecode** (intended_decode.dfy) the switch as it was evidently meant to read the two floating-point types. **DumpExample** (dump_example.dfy) works one database through both traversals.

The code has three defects in the traversal. The model keeps them, as the code is written:

1. Line 85 passes `WriteTableAsJson` the table name `Container_<id>`, and line 97 puts the prefix in front of it again. The property is therefore `Container_Container_<id>`, although line 99 opens the table `Container_<id>`.
2. For a table with no rows, lines 101-104 return right after the property name. The property gets no value, and the entry's object is never closed.
3. For a Containers table with no rows, lines 68-71 return before the first writer call, so no writer call is made.

Otherwise the output has the form `{"containers": [{<table name>: {"data": [<row objects>]}}, …]}`. In that form the three cases read `Container_<id>`, `{"data": []}` and `{"containers": []}`. `IntendedDump` is the traversal with those three corrections. It is proved to make writer calls that spell one JSON document whenever it ends normally (see Findings).

The column-type switch also reads two fixed-size types with an accessor of the wrong width (lines 164-170). Findings lists both, and `IntendedDecode` corrects them.

Abstractions:

- The database is `Database(containers, tables)`.
  - `containers` holds the `ContainerId` cells of the Containers table in cursor order, with `None` for null.
  - `tables` maps each table name to its ordered column list (name and `JET_coltyp`) and its rows.
  - A row maps column names to cells. A name missing from the row is a null cell.
- The engine's exceptions are explicit outcomes (`Outcome` is `Pass` or `Fail(DumpError)`):
  - `TableNotFound(name)` is what `new Table(...)` raises for a missing table;
  - `InvalidColumn(column, width)` is what a fixed-width accessor raises for a stored value shorter than its type.
- A run that fails leaves the writer holding the calls made so far. In the file, disposing the writer then closes what is still open (see the `Dispose` line under Left out).
- "One JSON document" is said of the sequence of writer calls, read with the token grammar of JsonWriter. It is not said of the file's text (see the `JsonTextWriter` line under Left out).

## Model

| member | source | states |
|---|---|---|
| EseDump.EseDatabase.constructor | ESEDump.Core/ESEDatabase.cs:28-33 | the object dumps the given database |
| EseDump.EseDatabase.OutputDatabaseAsJson | ESEDump.Core/ESEDatabase.cs:59-92 | on a fresh writer, the tokens and outcome are exactly `Dump(db)`: nothing for an empty Containers table, otherwise the header, the loop over the Containers rows (null ids skipped, the first exception stops it), then the closing tokens |
| EseDump.EseDatabase.WriteTableAsJson | ESEDump.Core/ESEDatabase.cs:94-115 | the writer gains what `AfterTable` gives: the heading with the doubled prefix; then TableNotFound for a missing table, a return right after the heading for an empty one, or the data object for a non-empty one |
| EseDump.EseDatabase.WriteRowsAsJson | ESEDump.Core/ESEDatabase.cs:117-136 | for a table with at least one row (which the caller guarantees), the writer gains an array with one object per row, or stops at the first failing row |
| EseDump.EseDatabase.WriteRowAsJson | ESEDump.Core/ESEDatabase.cs:125-131 | the writer gains one object with a property name and a value for each column in column order, or stops at the first unreadable cell |
| EseDump.EseDatabase.WriteValue | ESEDump.Core/ESEDatabase.cs:138-195 | the writer gains exactly the decoded value of the cell, or nothing with InvalidColumn |
| JsonWriter.Writer.constructor | ESEDump.Core/ESEDatabase.cs:66 | a new writer has received nothing |
| JsonWriter.Writer.WriteStartObject | ESEDump.Core/ESEDatabase.cs:73 | appends exactly one StartObject token |
| JsonWriter.Writer.WriteEndObject | ESEDump.Core/ESEDatabase.cs:90 | appends exactly one EndObject token |
| JsonWriter.Writer.WriteStartArray | ESEDump.Core/ESEDatabase.cs:75 | appends exactly one StartArray token |
| JsonWriter.Writer.WriteEndArray | ESEDump.Core/ESEDatabase.cs:89 | appends exactly one EndArray token |
| JsonWriter.Writer.WritePropertyName | ESEDump.Core/ESEDatabase.cs:74 | appends exactly one PropertyName token with the given name |
| JsonWriter.Writer.WriteValue | ESEDump.Core/ESEDatabase.cs:147 | appends exactly one Value token with the given value |
| ColumnTypes.TagOf | ESEDump.Core/ESEDatabase.cs:144-194 | a code falls to the default arm exactly when it is not one of 0-12 or 14-17 |
| ColumnTypes.TagCodeRoundTrip | ESEDump.Core/ESEDatabase.cs:144-194 | reading a code as a tag loses nothing: the tag gives the code back, and each canonical tag comes from its own code |
| ColumnTypes.CodeOf | ESEDump.Core/ESEDatabase.cs:144-194 | every canonical tag is the tag of its own code |
| ColumnTypes.RetrievalOf | ESEDump.Core/ESEDatabase.cs:144-194 | only the Nil arm and the default arm call no accessor, and of those only the default arm writes "type not recognised" |
| ColumnTypes.Interpret | ESEDump.Core/ESEDatabase.cs:150-190 | a fixed-width accessor makes a value of its own .NET type, within that type's range |
| ColumnTypes.Retrieve | ESEDump.Core/ESEDatabase.cs:150-190 | an accessor fails exactly when it is fixed-width and the stored value is shorter than its width, and the failure names that width; a fixed-width accessor gives null exactly for a null cell and otherwise a value of its type in range |
| ColumnTypes.Decode | ESEDump.Core/ESEDatabase.cs:138-195 | strings come only from the Nil, default and binary arms, text only from the Text and LongText arms, and every unlisted code writes "type not recognised" |
| ColumnTypes.UnrecognisedIff | ESEDump.Core/ESEDatabase.cs:192-194 | as a decoded value, a column gives the string "type not recognised" exactly when its code is not listed (13 and codes from 18 up included), whatever the cell holds |
| ColumnTypes.NilIsEmptyString | ESEDump.Core/ESEDatabase.cs:146-148 | a Nil column writes the empty string |
| ColumnTypes.BitIsBoolean | ESEDump.Core/ESEDatabase.cs:149-151 | a Bit column writes a boolean taken from its first byte, or null, and never a string or a number |
| ColumnTypes.SharedArms | ESEDump.Core/ESEDatabase.cs:161-185 | Currency and LongLong decode alike, as Int64; IEEESingle and IEEEDouble decode alike; Binary and LongBinary decode alike; Text and LongText decode alike |
| ColumnTypes.DecodeOutcomes | ESEDump.Core/ESEDatabase.cs:150-190 | decoding fails exactly when a fixed-width accessor meets a stored value shorter than its width; a null cell gives null except where the arm does not read nullably |
| ColumnTypes.DecodedInRange | ESEDump.Core/ESEDatabase.cs:150-190 | every decoded number lies in the range of the .NET type its accessor returns |
| ColumnTypes.DecodeEncoded | ESEDump.Core/ESEDatabase.cs:150-190 | a cell holding the little-endian encoding of a value decodes back to that value |
| ColumnTypes.BinaryRendering | ESEDump.Core/ESEDatabase.cs:171-175 | a binary column writes the stored bytes (none for null) as 3n-1 characters from which the bytes can be read back |
| ColumnTypes.EncodeValue | ESEDump.Core/ESEDatabase.cs:150-190 | the encoding of a value has the accessor's width |
| ColumnTypes.StoredWidth | ESEDump.Core/ESEDatabase.cs:149-190 | the engine stores a value of a fixed size exactly for the arms that call a fixed-width accessor |
| ColumnTypes.WidthMismatch | ESEDump.Core/ESEDatabase.cs:164-170 | an arm's accessor reads a different number of bytes than its column stores exactly for IEEESingle and DateTime |
| ColumnTypes.StoredValueDecodes | ESEDump.Core/ESEDatabase.cs:149-190 | for a stored value of its column's own width, the IEEESingle arm always fails, the DateTime arm writes only the first four bytes as a single, and every other arm reads exactly the stored bytes |
| IntendedDecode.IntendedRetrievalOf | ESEDump.Core/ESEDatabase.cs:164-170 | the corrected switch gives every fixed-size type an accessor of its stored width, and changes no other arm |
| IntendedDecode.IntendedDecodeOf | ESEDump.Core/ESEDatabase.cs:164-170 | the corrected decoder agrees with Decode on every other tag, and writes a single for IEEESingle and a double for DateTime |
| IntendedDecode.IntendedStoredValueDecodes | ESEDump.Core/ESEDatabase.cs:149-190 | under the corrected switch every stored value of its column's own width decodes, and for every type but Bit the reference encoder gives back exactly the stored bytes |
| Bytes.Unsigned | ESEDump.Core/ESEDatabase.cs:181 | the unsigned little-endian value of w bytes lies below 256^w |
| Bytes.Signed | ESEDump.Core/ESEDatabase.cs:156 | the two's-complement value of w bytes lies in the signed range, and is non-negative exactly when the unsigned value is below half |
| Bytes.UnsignedEncode | ESEDump.Core/ESEDatabase.cs:181 | encoding then reading unsigned gives the number back |
| Bytes.EncodeUnsigned | ESEDump.Core/ESEDatabase.cs:181 | reading then encoding unsigned gives the bytes back |
| Bytes.SignedEncode | ESEDump.Core/ESEDatabase.cs:156 | encoding then reading signed gives the number back |
| Bytes.EncodeSignedOf | ESEDump.Core/ESEDatabase.cs:156 | reading then encoding signed gives the bytes back |
| Hex.ToHexString | ESEDump.Core/ESEDatabase.cs:173-174 | `BitConverter.ToString`: the rendering is empty exactly when there are no bytes |
| Hex.Digit | ESEDump.Core/ESEDatabase.cs:174 | hex digits are 0-9 and upper-case A-F |
| Hex.DigitValue | ESEDump.Core/ESEDatabase.cs:174 | a hex character read back is the digit that renders as it |
| Hex.ByteToHex | ESEDump.Core/ESEDatabase.cs:174 | a byte renders as two characters |
| Hex.HexLength | ESEDump.Core/ESEDatabase.cs:174 | n bytes render as 3n-1 characters, none as the empty string |
| Hex.HexLayout | ESEDump.Core/ESEDatabase.cs:174 | byte k renders at characters 3k and 3k+1, and a '-' follows every byte but the last |
| Hex.HexAlphabet | ESEDump.Core/ESEDatabase.cs:174 | the rendering uses only upper-case hex digits and '-' |
| Hex.ByteRoundTrip | ESEDump.Core/ESEDatabase.cs:174 | a byte's two digits read back as the byte |
| Hex.HexRoundTrip | ESEDump.Core/ESEDatabase.cs:174 | the rendering reads back as the bytes |
| Hex.GroupsRoundTrip | ESEDump.Core/ESEDatabase.cs:174 | the rendering split at '-' reads back as the bytes |
| Hex.HexInjective | ESEDump.Core/ESEDatabase.cs:174 | distinct byte strings render differently |
| Hex.HexExample | ESEDump.Core/ESEDatabase.cs:173-174 | [0xDE, 0xAD] renders as "DE-AD"; no bytes render as "" |
| Decimal.IntToString | ESEDump.Core/ESEDatabase.cs:85 | the interpolated text of an integer, in the invariant culture, is non-empty and starts with '-' exactly when the integer is negative |
| Decimal.NatToString | ESEDump.Core/ESEDatabase.cs:85 | a number's text is a non-empty string of digits with no leading zero |
| Decimal.NatRoundTrip | ESEDump.Core/ESEDatabase.cs:85 | the digits of n read back as n |
| Decimal.IntRoundTrip | ESEDump.Core/ESEDatabase.cs:85 | the interpolated text of an integer reads back as the integer |
| Decimal.IntToStringInjective | ESEDump.Core/ESEDatabase.cs:85 | distinct integers have distinct texts |
| JsonWriter.ParseValue | ESEDump.Core/ESEDatabase.cs:73-135 | parsing a value consumes at least one token |
| JsonWriter.DepthAppend | ESEDump.Core/ESEDatabase.cs:73-135 | the nesting depth of two token runs adds up |
| JsonWriter.ValueBalanced | ESEDump.Core/ESEDatabase.cs:73-135 | a parsed value closes every container it opens |
| JsonWriter.MembersBalanced | ESEDump.Core/ESEDatabase.cs:73-135 | a parsed object body closes one more container than it opens |
| JsonWriter.ElementsBalanced | ESEDump.Core/ESEDatabase.cs:73-135 | a parsed array body closes one more container than it opens |
| JsonWriter.WellFormedBalanced | ESEDump.Core/ESEDatabase.cs:73-135 | a JSON document has depth zero |
| JsonWriter.ValueAppend | ESEDump.Core/ESEDatabase.cs:73-135 | parsing a value does not look past its end |
| JsonWriter.MembersAppend | ESEDump.Core/ESEDatabase.cs:73-135 | parsing an object body does not look past its end |
| JsonWriter.ElementsAppend | ESEDump.Core/ESEDatabase.cs:73-135 | parsing an array body does not look past its end |
| JsonWriter.ValuePrefix | ESEDump.Core/ESEDatabase.cs:73-135 | a document followed by anything parses up to exactly its end |
| JsonWriter.ElementPrefix | ESEDump.Core/ESEDatabase.cs:73-135 | inside an array a document is skipped over as one element |
| JsonWriter.MemberPrefix | ESEDump.Core/ESEDatabase.cs:73-135 | inside an object a name and a document are skipped over as one member |
| JsonWriter.SingletonObject | ESEDump.Core/ESEDatabase.cs:96-114 | an object with one property holding a document is a document |
| JsonWriter.ArrayOf | ESEDump.Core/ESEDatabase.cs:121-135 | an array whose body the parser skips over is a document |
| JsonWriter.EmptyNotWellFormed | ESEDump.Core/ESEDatabase.cs:68-71 | no tokens at all are not a JSON document |
| EseDump.ContainerTableName | ESEDump.Core/ESEDatabase.cs:85 | the interpolated table name starts with "Container_" and goes on past it |
| EseDump.AfterValue | ESEDump.Core/ESEDatabase.cs:138-195 | WriteValue appends exactly one value token, or appends nothing and raises InvalidColumn for that column |
| EseDump.AfterColumns | ESEDump.Core/ESEDatabase.cs:126-130 | the column loop only appends, raises nothing but InvalidColumn, and when it ends normally has appended two tokens per remaining column |
| EseDump.AfterRow | ESEDump.Core/ESEDatabase.cs:125-131 | one pass of the row loop only appends, raises nothing but InvalidColumn, and when it ends normally has appended two tokens per column and the two braces |
| EseDump.AfterRows | ESEDump.Core/ESEDatabase.cs:123-133 | the row loop only appends and raises nothing but InvalidColumn |
| EseDump.AfterRowsArray | ESEDump.Core/ESEDatabase.cs:117-136 | WriteRowsAsJson only appends and raises nothing but InvalidColumn |
| EseDump.AfterTable | ESEDump.Core/ESEDatabase.cs:94-115 | WriteTableAsJson only appends; it raises TableNotFound for its argument exactly when that table is missing, and otherwise nothing but InvalidColumn |
| EseDump.AfterEntry | ESEDump.Core/ESEDatabase.cs:78-85 | one Containers row only appends, and a null ContainerId appends nothing and raises nothing |
| EseDump.AfterEntries | ESEDump.Core/ESEDatabase.cs:76-87 | the Containers loop only appends |
| EseDump.Dump | ESEDump.Core/ESEDatabase.cs:59-92 | an empty Containers table gives no token and no exception; otherwise the output starts with the header {"containers": [ |
| DumpProperties.ValueWritten | ESEDump.Core/ESEDatabase.cs:138-195 | WriteValue writes the cell's value when the cell can be read, and otherwise writes nothing and raises InvalidColumn with the accessor's width |
| DumpProperties.ValueFrame | ESEDump.Core/ESEDatabase.cs:138-195 | WriteValue writes the same tokens, and ends the same way, whatever the writer held before |
| DumpProperties.ColumnsFrame | ESEDump.Core/ESEDatabase.cs:126-130 | the column loop writes the same whatever the writer held before |
| DumpProperties.RowFrame | ESEDump.Core/ESEDatabase.cs:125-131 | a row's object is the same whatever the writer held before |
| DumpProperties.RowsFrame | ESEDump.Core/ESEDatabase.cs:123-133 | the row loop writes the same whatever the writer held before |
| DumpProperties.RowsArrayFrame | ESEDump.Core/ESEDatabase.cs:117-136 | WriteRowsAsJson writes the same whatever the writer held before |
| DumpProperties.TableFrame | ESEDump.Core/ESEDatabase.cs:94-115 | WriteTableAsJson writes the same whatever the writer held before |
| DumpProperties.FirstUnreadable | ESEDump.Core/ESEDatabase.cs:126-130 | the first column whose cell cannot be read: every earlier one can |
| DumpProperties.ColumnStep | ESEDump.Core/ESEDatabase.cs:126-130 | a readable column adds its name and value, and the loop goes on with the next column |
| DumpProperties.ColumnsPass | ESEDump.Core/ESEDatabase.cs:126-130 | with every remaining cell readable, the column loop ends normally and writes each column's name and value in order |
| DumpProperties.ColumnsFail | ESEDump.Core/ESEDatabase.cs:126-130 | otherwise the column loop raises the exception of the first unreadable column |
| DumpProperties.ColumnsWritten | ESEDump.Core/ESEDatabase.cs:126-130 | the column loop ends normally exactly when every cell can be read; it then writes each column's name and value in order; otherwise it raises the first unreadable column's exception |
| DumpProperties.RowWritten | ESEDump.Core/ESEDatabase.cs:125-131 | one row's pass ends normally exactly when every cell can be read, and then writes the row object; otherwise it raises the first unreadable column's exception |
| DumpProperties.MembersAt | ESEDump.Core/ESEDatabase.cs:126-130 | member pair k of a row is column k's name followed by column k's value |
| DumpProperties.MembersLength | ESEDump.Core/ESEDatabase.cs:126-130 | a row has two tokens per column between its braces |
| DumpProperties.RowColumnOrder | ESEDump.Core/ESEDatabase.cs:125-131 | every row object has the table's columns as property names, in column order and whatever the row holds, each followed by exactly one value |
| DumpProperties.MembersParse | ESEDump.Core/ESEDatabase.cs:126-130 | the members of a row are skipped over pair by pair inside an object |
| DumpProperties.RowObjectWellFormed | ESEDump.Core/ESEDatabase.cs:125-131 | a row object is one JSON value |
| DumpProperties.FirstUnreadableRow | ESEDump.Core/ESEDatabase.cs:123-133 | the first row holding an unreadable cell: every earlier row is readable |
| DumpProperties.RowsPass | ESEDump.Core/ESEDatabase.cs:123-133 | with every remaining row readable, the row loop ends normally and writes their objects in row order |
| DumpProperties.RowsFail | ESEDump.Core/ESEDatabase.cs:123-133 | otherwise the row loop raises the exception of the first row holding an unreadable cell |
| DumpProperties.RowsWritten | ESEDump.Core/ESEDatabase.cs:123-133 | the row loop ends normally exactly when every row can be read, and then writes the row objects in row order; otherwise it raises the first failing row's exception |
| DumpProperties.ObjectsParse | ESEDump.Core/ESEDatabase.cs:123-133 | the row objects are skipped over one by one inside an array |
| DumpProperties.RowsArrayWritten | ESEDump.Core/ESEDatabase.cs:117-136 | WriteRowsAsJson ends normally exactly when the table can be read, and then writes [objects] |
| DumpProperties.RowsArrayWellFormed | ESEDump.Core/ESEDatabase.cs:121-135 | the array of row objects is one JSON value |
| DumpProperties.TableWritten | ESEDump.Core/ESEDatabase.cs:94-115 | a missing table gives the heading and TableNotFound with its name; an empty table gives the heading alone; the entry ends normally exactly when the table exists and can be read; a non-empty one is heading, {"data": [objects]} and two closing braces |
| DumpProperties.TablePasses | ESEDump.Core/ESEDatabase.cs:94-115 | WriteTableAsJson ends normally exactly when its table exists and can be read |
| DumpProperties.EntryStartsWithHeading | ESEDump.Core/ESEDatabase.cs:96-97 | every entry starts with StartObject and the prefixed property name, whatever the table holds |
| DumpProperties.HeadingDepth | ESEDump.Core/ESEDatabase.cs:96-104 | the heading alone leaves one container open |
| DumpProperties.EntryBalance | ESEDump.Core/ESEDatabase.cs:96-114 | the calls for the entry of a non-empty readable table spell one JSON value; those for an empty table leave one container open |
| DumpProperties.Ids | ESEDump.Core/ESEDatabase.cs:76-87 | the visited ids are never more than the Containers rows |
| DumpProperties.IdsMembership | ESEDump.Core/ESEDatabase.cs:78-83 | an id is visited exactly when some Containers row holds it |
| DumpProperties.IdsConcat | ESEDump.Core/ESEDatabase.cs:76-87 | skipping nulls keeps the cursor order |
| DumpProperties.IdsStep | ESEDump.Core/ESEDatabase.cs:80-85 | a null row adds no id and a non-null row adds its own |
| DumpProperties.EntriesSkipNulls | ESEDump.Core/ESEDatabase.cs:76-87 | the Containers loop writes the entries of the non-null ids only, in cursor order, and stops at the first exception |
| DumpProperties.EntriesFrame | ESEDump.Core/ESEDatabase.cs:76-87 | the entries are the same whatever the writer held before |
| DumpProperties.EntriesFirst | ESEDump.Core/ESEDatabase.cs:76-87 | the entries are the first id's entry, then, if that ended normally, the rest |
| DumpProperties.EntriesPass | ESEDump.Core/ESEDatabase.cs:76-87 | the entries end normally exactly when every id's table exists and can be read |
| DumpProperties.FirstFalse | ESEDump.Core/ESEDatabase.cs:76-87 | the index of the first false flag: all earlier flags are true |
| DumpProperties.Passing | ESEDump.Core/ESEDatabase.cs:76-87 | one flag per visited id |
| DumpProperties.FirstFailing | ESEDump.Core/ESEDatabase.cs:76-87 | the first id whose entry fails: the entries of all earlier ids end normally |
| DumpProperties.EntriesFirstOutcome | ESEDump.Core/ESEDatabase.cs:76-87 | the loop ends as the rest of it does when the first entry passes, and as the first entry does otherwise |
| DumpProperties.EntriesFail | ESEDump.Core/ESEDatabase.cs:76-87 | when an entry fails, the whole loop raises the exception of the first failing id |
| DumpProperties.EntriesTokens | ESEDump.Core/ESEDatabase.cs:76-87 | when they end normally, the entries are each id's own entry, one after the other |
| DumpProperties.EntriesDepth | ESEDump.Core/ESEDatabase.cs:76-104 | the entries leave one container open per empty table they visit |
| DumpProperties.ElementThen | ESEDump.Core/ESEDatabase.cs:76-87 | a document written before other tokens is skipped over inside an array |
| DumpProperties.EntriesParse | ESEDump.Core/ESEDatabase.cs:76-87 | with no empty table among them, the entries are skipped over one by one inside an array |
| DumpDocument.DumpEntries | ESEDump.Core/ESEDatabase.cs:59-92 | a dump with Containers rows is the header, the entries, and, if they ended normally, the closing tokens |
| DumpDocument.DumpEmpty | ESEDump.Core/ESEDatabase.cs:68-71 | the writer receives no token at all exactly when the Containers table has no rows, and that dump ends normally |
| DumpDocument.DumpPassIff | ESEDump.Core/ESEDatabase.cs:59-115 | the dump ends normally exactly when every non-null ContainerId names an existing table whose cells can all be read |
| DumpDocument.DumpFailure | ESEDump.Core/ESEDatabase.cs:76-99 | a failed dump raises the exception of the first visited id whose entry fails; a missing table is reported by its name |
| DumpDocument.DumpShape | ESEDump.Core/ESEDatabase.cs:73-90 | a dump that ends normally is the header, one entry per visited id in cursor order, and the closing tokens |
| DumpDocument.EntryNameDoubled | ESEDump.Core/ESEDatabase.cs:85-97 | the entry for id is named "Container_Container_" followed by the id, whatever its table holds |
| DumpDocument.DistinctTables | ESEDump.Core/ESEDatabase.cs:85-99 | distinct ContainerIds open distinct tables |
| DumpDocument.EnclosedDepth | ESEDump.Core/ESEDatabase.cs:73-90 | the header and the closing tokens add no depth |
| DumpDocument.EnclosedWellFormed | ESEDump.Core/ESEDatabase.cs:73-90 | {"containers": [c]} is a document when the array skips over c |
| DumpDocument.DumpDepth | ESEDump.Core/ESEDatabase.cs:59-115 | a dump that ends normally leaves one container open per visited empty table |
| DumpDocument.DumpWellFormed | ESEDump.Core/ESEDatabase.cs:59-115 | with a Containers row and no visited empty table, the writer calls of a dump that ends normally spell one JSON document |
| DumpDocument.DumpWellFormedIff | ESEDump.Core/ESEDatabase.cs:59-115 | the writer calls of a dump that ends normally spell one JSON document exactly when the Containers table has a row and no visited table is empty |
| IntendedDump.IntendedTable | ESEDump.Core/ESEDatabase.cs:94-115 | the corrected entry only appends; it raises TableNotFound for its table exactly when that table is missing, and otherwise nothing but InvalidColumn |
| IntendedDump.IntendedEntries | ESEDump.Core/ESEDatabase.cs:76-87 | the corrected Containers loop only appends |
| IntendedDump.IntendedDumpOf | ESEDump.Core/ESEDatabase.cs:59-92 | the corrected dump always starts with the header, and when it ends normally it ends with EndArray and EndObject |
| IntendedDump.IntendedTableFrame | ESEDump.Core/ESEDatabase.cs:94-115 | the corrected entry is the same whatever the writer held before |
| IntendedDump.IntendedTableWritten | ESEDump.Core/ESEDatabase.cs:94-115 | the corrected entry fails exactly where the as-written one does, and is otherwise {name: {"data": [objects]}} |
| IntendedDump.IntendedEntryWellFormed | ESEDump.Core/ESEDatabase.cs:94-115 | every corrected entry is one JSON value, an empty table included |
| IntendedDump.IntendedEmptyTable | ESEDump.Core/ESEDatabase.cs:101-104 | an empty table gets {name: {"data": []}} |
| IntendedDump.IntendedEntryName | ESEDump.Core/ESEDatabase.cs:85-97 | the corrected entry for id is named "Container_" followed by the id |
| IntendedDump.IntendedEntriesFrame | ESEDump.Core/ESEDatabase.cs:76-87 | the corrected entries are the same whatever the writer held before |
| IntendedDump.IntendedEntriesFirst | ESEDump.Core/ESEDatabase.cs:76-87 | the corrected entries are the first entry, then, if it ended normally, the rest |
| IntendedDump.IntendedEntriesPass | ESEDump.Core/ESEDatabase.cs:76-87 | the corrected entries end normally exactly when every id's table exists and can be read |
| IntendedDump.IntendedEntriesParse | ESEDump.Core/ESEDatabase.cs:76-87 | the corrected entries are skipped over one by one inside an array |
| IntendedDump.IntendedDumpEntries | ESEDump.Core/ESEDatabase.cs:59-92 | the corrected dump is the header, the entries and the closing tokens |
| IntendedDump.IntendedPassIff | ESEDump.Core/ESEDatabase.cs:59-115 | the traversal-corrected dump, which decodes with the as-written `Decode`, ends normally exactly when the as-written one does |
| IntendedDump.IntendedWellFormed | ESEDump.Core/ESEDatabase.cs:59-115 | the writer calls of every corrected dump that ends normally spell one JSON document |
| IntendedDump.IntendedNoContainers | ESEDump.Core/ESEDatabase.cs:68-71 | an empty Containers table gives {"containers": []} |
| DumpExample.ExampleNames | ESEDump.Core/ESEDatabase.cs:76-87 | the example visits ids 1 and 3, which name Container_1 and Container_3 |
| DumpExample.ExampleRowObject | ESEDump.Core/ESEDatabase.cs:125-131 | the example row is the object {"Name": "A"} |
| DumpExample.ExampleRowsArray | ESEDump.Core/ESEDatabase.cs:117-136 | the example's Container_1 gives [{"Name": "A"}] |
| DumpExample.WrittenEntries | ESEDump.Core/ESEDatabase.cs:94-115 | as written, the entry for Container_1 is complete and doubly prefixed, and the entry for Container_3 is the heading alone |
| DumpExample.WrittenList | ESEDump.Core/ESEDatabase.cs:76-87 | the example's entries all end normally, and exactly one visited table is empty |
| DumpExample.WrittenExample | ESEDump.Core/ESEDatabase.cs:59-115 | as written, the example dump ends normally with the doubled names and the open Container_3 entry, and its writer calls do not spell one JSON document |
| DumpExample.IntendedEntriesOfExample | ESEDump.Core/ESEDatabase.cs:94-115 | the corrected entries of the example's two tables |
| DumpExample.IntendedListOfExample | ESEDump.Core/ESEDatabase.cs:76-87 | the corrected entries of the example, in order |
| DumpExample.IntendedExample | ESEDump.Core/ESEDatabase.cs:59-115 | corrected, the example's writer calls spell {"containers":[{"Container_1":{"data":[{"Name":"A"}]}},{"Container_3":{"data":[]}}]}, one JSON document |

## Left out

- Engine open and attach (lines 35-50, `JetGetDatabaseFileInfo`, `Instance`, `Session`, `JetAttachDatabase`, `JetOpenDatabase`): these are foreign calls. The model starts from the opened database's tables, so an open error is not modelled.
- `JetGetColumnInfo` (line 140) and `Api.GetColumnDictionary` (lines 62, 119): the column list and each column's `JET_coltyp` are given as data. The dictionary's enumeration order is taken as the given column order.
- Opening the Containers table (line 61) happens before the output file is created. For a database without a Containers table, `new Table(...)` raises there and no file is written. `Database` always has a Containers table, so this case is not modelled.
- Reading a ContainerId (line 78): `containers` holds each row's ContainerId already read, as an `int32` or null. Two exceptions are not modelled. The column dictionary's indexer raises `KeyNotFoundException` when the Containers table has no ContainerId column. `RetrieveColumnAsInt32` raises for a stored value shorter than four bytes. Either would end the dump after the header, keeping the entries written so far.
- Cursor internals: `TryMoveFirst` and `TryMoveNext` become index loops over the given rows.
- The interop accessors are not visible.
  - A fixed-width accessor is modelled as returning null for a null cell and reading the first bytes, little-endian, of a longer value.
  - It is modelled as raising `InvalidColumn` for a shorter value.
  - `RetrieveColumnAsString` is modelled as returning null for a null cell and the stored bytes otherwise.
- Floating point, UTF-16 text and GUID text (lines 166, 169, 178, 187): the double, float, text and GUID values are kept as their stored bytes, so their JSON text is not modelled.
- `JsonTextWriter` itself: how it formats values, and what it makes of an unbalanced sequence of calls.
  - The Newtonsoft writer completes any deeper containers still open when `WriteEndArray` or `WriteEndObject` is called (lines 89-90), and again on dispose. It writes `null` for a property still waiting for a value.
  - So in the file, the entry left open by an empty table is closed at line 89 with a `null` value. If another id follows, that id's entry is written inside the open one.
  - The model records only the calls made on the writer, and every statement about one JSON document is about those calls. The file stream and UTF-8 encoding (lines 64-65) are left out as I/O.
- `Dispose` and the `using` blocks (lines 64-66, 99, 198-203). Disposing the `JsonTextWriter` of line 66 closes the containers still open. After a normal end nothing is open, because lines 89-90 have closed it all, so this writes text only when an exception ends the dump. The model does not record that text. The other disposals release engine handles and streams, and write nothing.
- DBReader.Console/Program.cs and ESEDump.Console/Program.cs are not part of this model: they hard-code file paths and call `JsonDump`.
- Decimal.IntToString: gives the invariant culture's text of an integer. Line 85 formats with the current culture. Where that culture's negative sign is not '-' (ICU gives U+2212 for some cultures), a negative ContainerId gives another table name, so the source may raise `TableNotFound` where the model opens a table, or the reverse. The digits are the ASCII digits in every culture.
- ColumnTypes.UnrecognisedIff: holds of the decoded value, not of the JSON text. Text is kept as its stored UTF-16 bytes, so a Text or LongText cell whose text is "type not recognised" is a `TextValue` here. In the source it makes the same `WriteValue(string)` call as the default arm (line 178 against line 193).
- IntendedDump: keeps the as-written decoder `Decode`, so a corrected dump still fails on any non-null IEEESingle cell and still writes only four bytes of a DateTime cell. Its three corrections are to the traversal only. `IntendedDump.IntendedPassIff` (the corrected dump ends normally exactly when the as-written one does) holds because both decode alike. With `IntendedDecode.IntendedDecodeOf` instead, an IEEESingle cell could be read, and that equivalence would not hold.
- EseDump.EseDatabase.WriteRowsAsJson: requires a table with at least one row, because its only caller has already moved to the first row (line 101). The do-while therefore always runs at least once.

## Findings

| source | as written | input that shows it | evidently intended | confidence | as-written member | corrected member |
|---|---|---|---|---|---|---|
| ESEDump.Core/ESEDatabase.cs:85-97 | the caller passes the table name `Container_<id>` and the property name adds the prefix again | ContainerId 1 gives the property `Container_Container_1` | the property is the table name `Container_1` | high, not executed | DumpDocument.EntryNameDoubled | IntendedDump.IntendedEntryName |
| ESEDump.Core/ESEDatabase.cs:101-104 | an empty table returns after the property name; the writer calls give the property no value and never close the entry's object, so the writer later fills in `null` or nests the next entry inside it | a Containers row 3 whose table Container_3 has no rows | `{"Container_3": {"data": []}}`, a complete entry | high, not executed | DumpProperties.EntryBalance | IntendedDump.IntendedEmptyTable |
| ESEDump.Core/ESEDatabase.cs:68-71 | an empty Containers table returns before the first writer call, so the file holds no JSON text | a database whose Containers table has no rows | `{"containers": []}` | medium, not executed | DumpDocument.DumpEmpty | IntendedDump.IntendedNoContainers |
| ESEDump.Core/ESEDatabase.cs:164-167 | an IEEESingle column, which stores four bytes, is read with the eight-byte `RetrieveColumnAsDouble` | any non-null IEEESingle cell, such as the four bytes of 1.0f: the accessor raises | read with `RetrieveColumnAsFloat` and written as a single | medium, not executed; rests on the accessors raising for a value shorter than their width | ColumnTypes.StoredValueDecodes | IntendedDecode.IntendedStoredValueDecodes |
| ESEDump.Core/ESEDatabase.cs:168-170 | a DateTime column, which stores an eight-byte double, is read with the four-byte `RetrieveColumnAsFloat` | any non-null DateTime cell: only its first four bytes reach the writer, as a single | read as the double it is | medium, not executed; rests on the accessors reading the first bytes of a longer value | ColumnTypes.StoredValueDecodes | IntendedDecode.IntendedStoredValueDecodes |

The example database has Containers rows 1, null and 3. Container_1 holds one row whose Name is "A", and Container_3 is empty:

- `DumpExample.WrittenExample` proves what the code writes for it, and that these writer calls do not spell one JSON document.
- `DumpExample.IntendedExample` proves that the corrected traversal's writer calls spell `{"containers":[{"Container_1":{"data":[{"Name":"A"}]}},{"Container_3":{"data":[]}}]}`.
- `IntendedDump.IntendedWellFormed` proves that the writer calls of every corrected dump that ends normally spell one JSON document.
- `DumpDocument.DumpWellFormedIff` proves that, when the as-written dump ends normally, its calls spell one exactly when the Containers table has a row and no visited table is empty.
