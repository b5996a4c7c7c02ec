# Magma core, modelled in Dafny

This project models part of Magma, a data-catalogue library. Magma has:

- datasources, which hold tables;
- tables, which have variables (the columns) and entities (the rows);
- values, which are typed, may be null and may be sequences.

The model covers these pieces, each as a module of pure functions over immutable datatypes:

- **Dates** (`dates.dfy`): the calendar-date value type.
  - Text is read by trying eight strict day/month/year templates in a fixed order, ISO 8601 `yyyy-MM-dd` first.
  - Each template reads a prefix of the text, as a non-lenient `SimpleDateFormat` does.
  - When no template reads the text, the error message lists every pattern.
  - Dates are written back in the calendar-date extended format of section 4.1.2.2 of ISO 8601:2004.
  - The module also covers conversion from the Java objects the type accepts, and chronological comparison.
  - `Calendar` (`calendar.dfy`) holds the proleptic Gregorian date triple that Dates builds on.
- **ScriptableValueMethods**: the methods a script can call on a value. These are `value()`, `type()`, `date()`/`datetime()`, `length()` and `asSequence()`. The collaborators they call are passed in as a `Host` record of functions:
  - value conversion;
  - rendering a value as text;
  - a value's length;
  - date-pattern checking and parsing.
- **StaticDatasource**: the in-memory datasource and its writer.
  - The catalogue is an insertion-ordered map of tables by name (`OrderedMap`), with create-or-reuse writers, drop and dispose.
  - Attributes form a list keyed by name, with an upsert.
  - The writer holds the table it was created on, and files variables, entities and values into it while that table is filed.
- **NullSources**: a column that is null everywhere, and timestamps that are null.
- **MongoValueSource**: a document-store column.
  - Its variable definition is cached against the table's last-update timestamp.
  - A lazy iterator reads one value per row. `ReadAll` drains it.
- **ValueSetState**: a stored row whose value set is created on first access. Its name-to-value index is built once, then frozen.
- **ExcelDatasource**: the spreadsheet naming helpers. A workbook is modelled as its list of sheet names. The helpers are:
  - `name:locale` attribute names;
  - reserved sheets;
  - get-or-create sheet, where lookup ignores letter case;
  - header maps;
  - custom attribute names.
- **ExcludeAllFilter**: the filter that matches everything, built as an exclude filter.

The shared types are:

- `Values`: the value types, tagged values, errors and element-wise conversion.
- `Schema`: entities, variables and attributes.
- `Text`: digits, `String.split` semantics and ASCII case.
- `Wrappers`: `Option` and `Result`.

Exceptions are modelled as `Err` results and Java `null` as `None`.

Where the code departs from what its own declarations promise, the model follows the code:

- `StaticDatasource.getValueTable` declares `throws NoSuchValueTableException` (StaticDatasource.java:76), yet on a missing name it returns null. `GetValueTable` returns `None`.
- `getCustomAttributeNames` and the sequence branch of `getDateValue` differ from what their names promise. See Findings.

## Model

| member | source | states |
|---|---|---|
| Dates.TemplatePatterns | api/src/main/java/org/obiba/magma/type/DateType.java:28-36 | The eight templates are tried in the order yyyy-MM-dd, yyyy/MM/dd, yyyy.MM.dd, yyyy MM dd, dd-MM-yyyy, dd/MM/yyyy, dd.MM.yyyy, dd MM yyyy. |
| Dates.DescribePatterns | api/src/main/java/org/obiba/magma/type/DateType.java:40-50 | The constructor's accumulation gives the quoted patterns in order: the first alone, every later one after ", ". |
| Dates.ParseWith | api/src/main/java/org/obiba/magma/type/DateType.java:108-113 | A template only ever yields a valid calendar date (strict, non-lenient reading), and only when its three fields and separators are present. Each field counts as its number narrowed to a Java `int`, and a year above 292278994 is refused. |
| Dates.FieldValue | api/src/main/java/org/obiba/magma/type/DateType.java:108-113 | A numeric field always lands in the `int` range. It is its number when that fits, agrees with the number modulo 2^32 when the number fits in a `long`, and is the largest `int` beyond that. |
| Dates.FirstSome | api/src/main/java/org/obiba/magma/type/DateType.java:97-103 | The search returns the first successful attempt; every earlier attempt failed; none is found exactly when all fail. |
| Dates.ValueOfString | api/src/main/java/org/obiba/magma/type/DateType.java:91-106 | A null string gives the null date. Otherwise the result is the date read by the first template that reads the text. The result is an error exactly when no template does, and the error message names the text and every pattern. |
| Dates.ValueOfFields | api/src/main/java/org/obiba/magma/type/DateType.java:97-103 | For digit fields joined by '-', '/', '.' or ' ', the year-first reading of the `int` values of the fields wins when it is a valid date. Otherwise the day-first reading is used when it is valid. Otherwise reading fails. |
| Dates.IsoTextExample | api/src/main/java/org/obiba/magma/type/DateType.java:97-103 | "2020-03-05" is read by the ISO template as 5 March 2020. |
| Dates.DayFirstTextExample | api/src/main/java/org/obiba/magma/type/DateType.java:28-36 | "05/03/2020" is read by dd/MM/yyyy as 5 March 2020, because yyyy/MM/dd would need day 2020. |
| Dates.ShortYearExample | api/src/main/java/org/obiba/magma/type/DateType.java:41-43 | A two-digit first field is a literal year: "05-03-12" is 12 March of year 5. |
| Dates.WrappedYearExample | api/src/main/java/org/obiba/magma/type/DateType.java:97-103 | A year field of 2^32 + 2020 keeps its low 32 bits: with month 3 and day 5 it reads as 5 March 2020. |
| Dates.LargeYearRefused | api/src/main/java/org/obiba/magma/type/DateType.java:97-103 | A year of 292278995, one past the largest Gregorian year, is refused by every template. |
| Dates.WrongSeparator | api/src/main/java/org/obiba/magma/type/DateType.java:28-36 | A template does not read a text whose first field is followed by a different non-digit separator. |
| Dates.ParseIgnoresTrailingText | api/src/main/java/org/obiba/magma/type/DateType.java:108-113 | Once a template reads a text, appending text that does not continue the last field leaves the reading unchanged. |
| Dates.ValueOfObject | api/src/main/java/org/obiba/magma/type/DateType.java:115-135 | Null gives the null date. A date object, a Date subclass or a Calendar gives its calendar date. A string is read as text. Any other class is an illegal-argument error. |
| Dates.AcceptedClasses | api/src/main/java/org/obiba/magma/type/DateType.java:79-89 | Only the calendar-date class is accepted as a native type; java.util.Date, SQL dates, timestamps and calendars are refused. |
| Dates.ToText | api/src/main/java/org/obiba/magma/type/DateType.java:151-159 | A null payload renders as null; a date renders as text that the ISO template reads back as that date. |
| Dates.RenderShape | api/src/main/java/org/obiba/magma/type/DateType.java:151-159 | The rendering is the year's digits, '-', two month digits, '-', and two day digits, each group spelling its field; for years below 10000 it is exactly ten characters, YYYY-MM-DD. |
| Dates.RoundTripIso | api/src/main/java/org/obiba/magma/type/DateType.java:151-159 | The ISO template reads the rendering of any valid date back as that date. |
| Dates.ValueOfRendering | api/src/main/java/org/obiba/magma/type/DateType.java:97-103 | `valueOf` of the rendering of a date is that date's value. |
| Dates.ValueOfToText | api/src/main/java/org/obiba/magma/type/DateType.java:151-159 | Reading text, writing the date and reading again gives the same value, whichever template first read the text. |
| Dates.CastToDate | api/src/main/java/org/obiba/magma/type/DateType.java:139 | The cast of a payload to a calendar date: null for a null value, the date for a date payload, a class-cast error for anything else. |
| Dates.CompareValues | api/src/main/java/org/obiba/magma/type/DateType.java:137-140 | Both payloads are cast first: a payload that is not a date, or a sequence, is a class-cast error. Then a null date on either side is a null reference. Otherwise the result is negative, zero or positive exactly when the first date is before, equal to or after the second. |
| Calendar.BeforeIsStrictTotalOrder | api/src/main/java/org/obiba/magma/type/DateType.java:137-140 | Chronological order is irreflexive, transitive and total on dates. |
| ScriptableValueMethods.NativeValue | magma-js/src/main/java/org/obiba/magma/js/methods/ScriptableValueMethods.java:48-54 | `value()` is script null exactly when the value is null, and the value itself otherwise. |
| ScriptableValueMethods.TypeOf | magma-js/src/main/java/org/obiba/magma/js/methods/ScriptableValueMethods.java:65-78 | With no argument, the result is the type's name as text. A null argument fails, and an unknown type name fails. Otherwise the result is the conversion to the named type, and a successful conversion has exactly that type name. |
| ScriptableValueMethods.TypeOfIgnoresExtraArguments | magma-js/src/main/java/org/obiba/magma/js/methods/ScriptableValueMethods.java:65-78 | Only the first argument of `type()` affects the result. |
| ScriptableValueMethods.TypeOfOwnName | magma-js/src/main/java/org/obiba/magma/js/methods/ScriptableValueMethods.java:65-78 | Converting to the value's own type name keeps its type, nullness and shape. |
| ScriptableValueMethods.TypeOfSequence | magma-js/src/main/java/org/obiba/magma/js/methods/ScriptableValueMethods.java:65-78 | On a sequence, `type(name)` converts element by element: each element of a successful result is the conversion of the element at its position, and an element that does not convert fails the whole. |
| ScriptableValueMethods.DateOf | magma-js/src/main/java/org/obiba/magma/js/methods/ScriptableValueMethods.java:91-126 | A missing or null format is an evaluation error with the fixed message, raised before any conversion. Otherwise `date()`/`datetime()` convert with the first argument. |
| ScriptableValueMethods.DateOfIgnoresExtraArguments | magma-js/src/main/java/org/obiba/magma/js/methods/ScriptableValueMethods.java:91-102 | Only the first argument of `date()`/`datetime()` affects the result. |
| ScriptableValueMethods.ReadDate | magma-js/src/main/java/org/obiba/magma/js/methods/ScriptableValueMethods.java:151-161 | Null text gives the calendar-date null. Otherwise reading succeeds exactly when the pattern parses the rendered text, giving the parsed instant as a date or date-time value. A failure names the pattern and the text. |
| ScriptableValueMethods.InstantValue | magma-js/src/main/java/org/obiba/magma/js/methods/ScriptableValueMethods.java:155-156 | A parsed instant becomes its calendar date for `date()` and the whole instant for `datetime()`. |
| ScriptableValueMethods.DateValueOf | magma-js/src/main/java/org/obiba/magma/js/methods/ScriptableValueMethods.java:128-149 | A failed text conversion is reported first, then an ill-formed pattern. A scalar is read on its own, with the parse failure naming the pattern and the text. A null sequence gives the date null sequence, an empty sequence an empty date sequence. A non-empty sequence fails exactly when the text of the whole sequence cannot be read, and otherwise gives that one reading for every element. |
| ScriptableValueMethods.NullIsCalendarDateNull | magma-js/src/main/java/org/obiba/magma/js/methods/ScriptableValueMethods.java:151-152 | A null scalar gives the calendar-date null, on the date-time path too. |
| ScriptableValueMethods.NullSequenceIsCalendarDateNullSequence | magma-js/src/main/java/org/obiba/magma/js/methods/ScriptableValueMethods.java:132-135 | A null sequence gives the calendar-date null sequence. |
| ScriptableValueMethods.DateSequenceElementsAgree | magma-js/src/main/java/org/obiba/magma/js/methods/ScriptableValueMethods.java:136-144 | All elements of a converted sequence are the same value. |
| ScriptableValueMethods.WholeTextDiffersFromElementText | magma-js/src/main/java/org/obiba/magma/js/methods/ScriptableValueMethods.java:136-144 | Take a two-element sequence whose second element reads as another date than the whole text. The code as written and the element-wise reading then disagree on that element. |
| ScriptableValueMethods.DateValueOfElementwise | magma-js/src/main/java/org/obiba/magma/js/methods/ScriptableValueMethods.java:128-149 | Corrected reading: a scalar is read on its own; a sequence fails exactly when one of its elements cannot be read, and otherwise each element is read from its own text; the error order and null handling are those of the code as written. |
| ScriptableValueMethods.ReadDates | magma-js/src/main/java/org/obiba/magma/js/methods/ScriptableValueMethods.java:136-144 | Reading a list succeeds with one date per element, in order, and fails exactly when some element cannot be read. |
| ScriptableValueMethods.ElementwiseAgreesOnScalars | magma-js/src/main/java/org/obiba/magma/js/methods/ScriptableValueMethods.java:146-148 | On a scalar, the as-written and corrected readings agree. |
| ScriptableValueMethods.LengthOfOne | magma-js/src/main/java/org/obiba/magma/js/methods/ScriptableValueMethods.java:181-183 | A null element has the integer null as its length; any other element has the integer of its length. |
| ScriptableValueMethods.Length | magma-js/src/main/java/org/obiba/magma/js/methods/ScriptableValueMethods.java:167-190 | `length()` is integer-typed and keeps nullness and shape. A sequence gives a same-length sequence of its elements' lengths, position by position. |
| ScriptableValueMethods.AsSequence | magma-js/src/main/java/org/obiba/magma/js/methods/ScriptableValueMethods.java:195-201 | A sequence is unchanged; a scalar becomes the one-element sequence of its own type. |
| ScriptableValueMethods.AsSequenceIdempotent | magma-js/src/main/java/org/obiba/magma/js/methods/ScriptableValueMethods.java:195-201 | `asSequence` twice is `asSequence` once. |
| ScriptableValueMethods.LengthOfAsSequence | magma-js/src/main/java/org/obiba/magma/js/methods/ScriptableValueMethods.java:167-201 | The length of a scalar viewed as a sequence is the one-element sequence of its length. |
| StaticDatasource.New | api/src/main/java/org/obiba/magma/support/StaticDatasource.java:44-47 | A new datasource has its name, no tables and no attributes. |
| StaticDatasource.Type | api/src/main/java/org/obiba/magma/support/StaticDatasource.java:65-68 | The kind of a static datasource is "static". |
| StaticDatasource.AddValueTable | api/src/main/java/org/obiba/magma/support/StaticDatasource.java:49-51 | The table is filed under its name, replacing any table of that name; every other name is unaffected, and no later table reuses its identity. |
| StaticDatasource.HasValueTable | api/src/main/java/org/obiba/magma/support/StaticDatasource.java:71-73 | True exactly for the names in the catalogue. |
| StaticDatasource.GetValueTable | api/src/main/java/org/obiba/magma/support/StaticDatasource.java:76-78 | The table under the name, or none (not an error) when there is none. |
| StaticDatasource.GetValueTables | api/src/main/java/org/obiba/magma/support/StaticDatasource.java:81-83 | Exactly the tables filed in the catalogue. |
| StaticDatasource.CanDropTable | api/src/main/java/org/obiba/magma/support/StaticDatasource.java:86-88 | A table can be dropped exactly when it is there. |
| StaticDatasource.DropTable | api/src/main/java/org/obiba/magma/support/StaticDatasource.java:91-93 | The name is gone afterwards and every other table is unchanged. |
| StaticDatasource.DropMissingTable | api/src/main/java/org/obiba/magma/support/StaticDatasource.java:91-93 | Dropping an absent name changes nothing. |
| StaticDatasource.Dispose | api/src/main/java/org/obiba/magma/support/StaticDatasource.java:61-63 | No table is left; the name and attributes stay. |
| StaticDatasource.CreateWriter | api/src/main/java/org/obiba/magma/support/StaticDatasource.java:96-108 | A null table name, then a null entity type, is an illegal argument and leaves no new state. An existing table is reused with the catalogue unchanged. Otherwise exactly one new empty table, with a fresh identity, is appended under that name. The writer holds the table filed under the name. |
| StaticDatasource.CreateWriterTwice | api/src/main/java/org/obiba/magma/support/StaticDatasource.java:100-107 | A second writer for the same name changes nothing, whatever entity type it gives. |
| StaticDatasource.CreateWriterThenDrop | api/src/main/java/org/obiba/magma/support/StaticDatasource.java:91-108 | Creating a writer on a new name and then dropping that table restores the catalogue; only the identity counter has advanced, past the new writer's identity. |
| StaticDatasource.SetAttributeValue | api/src/main/java/org/obiba/magma/support/StaticDatasource.java:111-120 | The first attribute of that name is replaced in place, or one is appended when there is none. Attributes of every other name are unchanged. |
| StaticDatasource.SetAttributeValueIdempotent | api/src/main/java/org/obiba/magma/support/StaticDatasource.java:111-120 | Setting the same attribute value twice is setting it once. |
| Schema.NewAttribute | api/src/main/java/org/obiba/magma/support/StaticDatasource.java:112 | A built attribute has the given name and value, and no namespace or locale. |
| StaticDatasource.WriteVariable | api/src/main/java/org/obiba/magma/support/StaticDatasource.java:135-159 | While the writer's own table is filed, it records the variable under its name; its entities, values and other variables and the other tables are unchanged. A writer whose table is no longer the one filed under its name changes nothing. |
| StaticDatasource.WriteValueSet | api/src/main/java/org/obiba/magma/support/StaticDatasource.java:135-167 | While the writer's own table is filed, the entity is registered in it, with no other entity added and nothing else changed. A writer whose table is no longer filed changes nothing. |
| StaticDatasource.WriteValueSetIdempotent | api/src/main/java/org/obiba/magma/support/StaticDatasource.java:164-167 | Opening a value set for the same entity twice registers it once. |
| StaticDatasource.WriteValue | api/src/main/java/org/obiba/magma/support/StaticDatasource.java:135-177 | While the writer's own table is filed, the value is recorded for the entity and the variable and nothing else changes. A writer whose table is no longer filed changes nothing. |
| StaticDatasource.StaleWriterAfterRecreate | api/src/main/java/org/obiba/magma/support/StaticDatasource.java:91-108 | Create a writer, drop its table and create a writer on a new table of the same name: the first writer no longer reaches the catalogue, and its writes change nothing. |
| StaticDatasource.ReplacedTableCutsWriterOff | api/src/main/java/org/obiba/magma/support/StaticDatasource.java:49-51 | Filing another table under the writer's name cuts the writer off: its value-set writes change nothing. |
| NullSources.GetValueType | api/src/main/java/org/obiba/magma/support/NullValueSource.java:15-24 | The type is the one the source was built with. |
| NullSources.GetValue | api/src/main/java/org/obiba/magma/support/NullValueSource.java:26-29 | Every row's value is the scalar null of that type. |
| NullSources.GetValues | api/src/main/java/org/obiba/magma/support/NullValueSource.java:36-39 | One value per row, each equal to the row's value, so no rows give no values. |
| NullSources.ValuesAgreeWithValue | api/src/main/java/org/obiba/magma/support/NullValueSource.java:26-39 | Every value of a vector equals the value of any single row. |
| NullSources.AsVectorSource | api/src/main/java/org/obiba/magma/support/NullValueSource.java:31-34 | The vector source has the same type and the same vectors. |
| NullSources.Created | api/src/main/java/org/obiba/magma/support/NullTimestamps.java:29-33 | The creation time is the date-time null. |
| NullSources.LastUpdate | api/src/main/java/org/obiba/magma/support/NullTimestamps.java:35-39 | The last-update time is the date-time null. |
| NullSources.CreatedIsLastUpdate | api/src/main/java/org/obiba/magma/support/NullTimestamps.java:29-39 | Both timestamps are the same null value. |
| MongoValueSource.New | magma-datasource-mongodb/src/main/java/org/obiba/magma/datasource/mongodb/MongoDBVariableValueSource.java:42-45 | A new source has its name, no recorded timestamp and no definition. |
| MongoValueSource.GetVariable | magma-datasource-mongodb/src/main/java/org/obiba/magma/datasource/mongodb/MongoDBVariableValueSource.java:47-55 | The definition is reloaded exactly when no timestamp is recorded or it differs from the table's. The table's timestamp is recorded whatever the lookup gives: a successful lookup stores and returns the definition; a failed one returns the failure and keeps the previous definition. Without a reload the stored definition, possibly null, is returned. |
| MongoValueSource.GetVariableTwice | magma-datasource-mongodb/src/main/java/org/obiba/magma/datasource/mongodb/MongoDBVariableValueSource.java:49-54 | A second lookup with an unchanged timestamp neither reloads nor changes the source, and returns what a successful first lookup returned. |
| MongoValueSource.GetVariableAfterUpdate | magma-datasource-mongodb/src/main/java/org/obiba/magma/datasource/mongodb/MongoDBVariableValueSource.java:50-53 | After the table's timestamp changes, the next lookup reloads and returns what the store gives. |
| MongoValueSource.FailedLookupKeepsStaleVariable | magma-datasource-mongodb/src/main/java/org/obiba/magma/datasource/mongodb/MongoDBVariableValueSource.java:49-54 | A failed reload still records the timestamp, so the next call does not look again and returns the definition from before; for a source whose first lookup failed, that is null and the type is a null reference. |
| MongoValueSource.Resolved | magma-datasource-mongodb/src/main/java/org/obiba/magma/datasource/mongodb/MongoDBVariableValueSource.java:57-60 | The definition a caller uses: a failed lookup stays a failure, and a null definition is a null reference. |
| MongoValueSource.GetValueType | magma-datasource-mongodb/src/main/java/org/obiba/magma/datasource/mongodb/MongoDBVariableValueSource.java:57-61 | The type is that of the current, possibly refreshed, definition; a failed lookup or a null definition is an error. |
| MongoValueSource.GetValue | magma-datasource-mongodb/src/main/java/org/obiba/magma/datasource/mongodb/MongoDBVariableValueSource.java:76-80 | A row's value is read with the current definition; a failed lookup or a null definition is an error. |
| MongoValueSource.GetValues | magma-datasource-mongodb/src/main/java/org/obiba/magma/datasource/mongodb/MongoDBVariableValueSource.java:63-67 | No rows give the empty list. Otherwise the rows are kept for later, with nothing read. |
| MongoValueSource.Iterator | magma-datasource-mongodb/src/main/java/org/obiba/magma/datasource/mongodb/MongoDBVariableValueSource.java:68-73 | An iterator over rows resolves the definition when it is created, and cannot be made without one. The empty list's iterator touches neither the source nor the store. |
| MongoValueSource.HasNext | magma-datasource-mongodb/src/main/java/org/obiba/magma/datasource/mongodb/MongoDBVariableValueSource.java:108-111 | There is a next value exactly when rows remain. |
| MongoValueSource.Next | magma-datasource-mongodb/src/main/java/org/obiba/magma/datasource/mongodb/MongoDBVariableValueSource.java:113-119 | The next row's value is read with the iterator's definition and one row fewer remains. An exhausted iterator has no such element. |
| MongoValueSource.Remove | magma-datasource-mongodb/src/main/java/org/obiba/magma/datasource/mongodb/MongoDBVariableValueSource.java:121-124 | Removal is unsupported. |
| MongoValueSource.ReadAll | magma-datasource-mongodb/src/main/java/org/obiba/magma/datasource/mongodb/MongoDBVariableValueSource.java:63-119 | Draining the vector gives one value per row, in row order, all read with the definition resolved at iterator creation, or that resolution's error. No rows leave the source untouched. |
| MongoValueSource.AsVectorSource | magma-datasource-mongodb/src/main/java/org/obiba/magma/datasource/mongodb/MongoDBVariableValueSource.java:82-86 | The vector source is the same source, with the same timestamp and definition. |
| ValueSetState.New | hibernate/hibernate-datasource/src/main/java/org/obiba/magma/datasource/hibernate/domain/ValueSetState.java:44-48 | The constructor records the table and entity unchanged; nothing is loaded. |
| ValueSetState.GetValues | hibernate/hibernate-datasource/src/main/java/org/obiba/magma/datasource/hibernate/domain/ValueSetState.java:58-60 | The value set is never absent: it is created empty on first access, then returned as it is. |
| ValueSetState.GetValuesStable | hibernate/hibernate-datasource/src/main/java/org/obiba/magma/datasource/hibernate/domain/ValueSetState.java:58-60 | A second access returns the same set and state. |
| ValueSetState.AddValue | hibernate/hibernate-datasource/src/main/java/org/obiba/magma/datasource/hibernate/domain/ValueSetState.java:58-59 | Adding to the returned set adds the value once and leaves the index alone. |
| ValueSetState.IndexByName | hibernate/hibernate-datasource/src/main/java/org/obiba/magma/datasource/hibernate/domain/ValueSetState.java:66-75 | Each variable name maps to the last value of a variable of that name, and only names present are keys. |
| ValueSetState.IndexKeys | hibernate/hibernate-datasource/src/main/java/org/obiba/magma/datasource/hibernate/domain/ValueSetState.java:68-71 | The keys are exactly the variable names of the values, and each maps to a value of its own variable. |
| ValueSetState.GetValueMap | hibernate/hibernate-datasource/src/main/java/org/obiba/magma/datasource/hibernate/domain/ValueSetState.java:62-64 | An existing index is returned unchanged. Otherwise one is built from the value set (created if need be) with the last value per name, and kept. |
| ValueSetState.ValueMapFrozen | hibernate/hibernate-datasource/src/main/java/org/obiba/magma/datasource/hibernate/domain/ValueSetState.java:62-75 | Once built, the index does not reflect values added later. |
| ExcelDatasource.AttributeShortName | datasource-excel/src/main/java/org/obiba/magma/datasource/excel/ExcelDatasource.java:154-156 | The text before the first ':', or the whole name. A non-empty name made only of ':' has no first piece and fails. |
| ExcelDatasource.AttributeLocale | datasource-excel/src/main/java/org/obiba/magma/datasource/excel/ExcelDatasource.java:158-164 | The lower-cased second ':'-piece when the split has one, otherwise none. Further pieces are ignored. |
| ExcelDatasource.AttributeNameParts | datasource-excel/src/main/java/org/obiba/magma/datasource/excel/ExcelDatasource.java:154-164 | `short:lang` splits back into `short` and the lower-cased `lang`. |
| ExcelDatasource.AttributeNameWithoutLocale | datasource-excel/src/main/java/org/obiba/magma/datasource/excel/ExcelDatasource.java:154-164 | A name without ':' is its own short name and has no locale. |
| ExcelDatasource.GetSheet | datasource-excel/src/main/java/org/obiba/magma/datasource/excel/ExcelDatasource.java:191 | Lookup finds the first sheet whose name matches up to letter case, and none exactly when no sheet matches. |
| ExcelDatasource.CreateSheetIfNotExist | datasource-excel/src/main/java/org/obiba/magma/datasource/excel/ExcelDatasource.java:189-195 | Afterwards the sheet exists. An existing sheet is returned with the workbook unchanged; otherwise exactly one sheet is appended. |
| ExcelDatasource.CreateSheetIdempotent | datasource-excel/src/main/java/org/obiba/magma/datasource/excel/ExcelDatasource.java:189-195 | Asking for the same sheet again neither adds a sheet nor moves it. |
| ExcelDatasource.ValueTableNames | datasource-excel/src/main/java/org/obiba/magma/datasource/excel/ExcelDatasource.java:119-131 | Every sheet name except exactly "Variables" and "Categories". |
| ExcelDatasource.Initialise | datasource-excel/src/main/java/org/obiba/magma/datasource/excel/ExcelDatasource.java:71-89 | After initialisation the variables and categories sheets exist. The sheets already read keep their positions, and at most two sheets are added. |
| ExcelDatasource.InitialisedTableNames | datasource-excel/src/main/java/org/obiba/magma/datasource/excel/ExcelDatasource.java:84-85 | The reserved sheets never name tables, and every other sheet read from the file still does after initialisation. |
| ExcelDatasource.CreateWriter | datasource-excel/src/main/java/org/obiba/magma/datasource/excel/ExcelDatasource.java:61-69 | An existing table is reused. Otherwise a new table of that name and entity type is added, backed by the sheet found or created for the name. |
| ExcelDatasource.CreateWriterTwice | datasource-excel/src/main/java/org/obiba/magma/datasource/excel/ExcelDatasource.java:61-69 | A second writer for the same table adds neither a table nor a sheet. |
| ExcelDatasource.MapSheetHeader | datasource-excel/src/main/java/org/obiba/magma/datasource/excel/ExcelDatasource.java:177-187 | The keys are exactly the header texts, and each maps to its last column. |
| ExcelDatasource.CustomAttributeNamesAsWritten | datasource-excel/src/main/java/org/obiba/magma/datasource/excel/ExcelDatasource.java:166-175 | As written, every header text is kept, reserved ones included. |
| ExcelDatasource.ReservedHeaderKept | datasource-excel/src/main/java/org/obiba/magma/datasource/excel/ExcelDatasource.java:170 | With headers "name" and "label", the reserved "name" is reported as a custom attribute. |
| ExcelDatasource.CustomAttributeNames | datasource-excel/src/main/java/org/obiba/magma/datasource/excel/ExcelDatasource.java:166-175 | Corrected: exactly the header texts that are not reserved. |
| ExcludeAllFilter.RunFilter | filter/src/main/java/org/obiba/magma/filter/ExcludeAllFilter.java:15-18 | Every item matches. |
| ExcludeAllFilter.BuildForValueSet | filter/src/main/java/org/obiba/magma/filter/ExcludeAllFilter.java:26-30 | The value-set builder gives an exclude filter over value sets. |
| ExcludeAllFilter.BuildForVariableValueSource | filter/src/main/java/org/obiba/magma/filter/ExcludeAllFilter.java:32-36 | The variable-source builder gives an exclude filter over variable value sources. |
| ExcludeAllFilter.ExcludeAllBlocks | filter/src/main/java/org/obiba/magma/filter/ExcludeAllFilter.java:15-30 | A filter chain holding a built exclude-all filter lets no item through, whatever include filters it also holds. |

## Left out

- Java's date machinery (`SimpleDateFormat`, `GregorianCalendar`) is modelled only as far as the date type uses it:
  - fields are ASCII digit runs, optionally preceded by spaces or tabs;
  - signs, exponent notation (the number format behind the date format reads "2E3" as 2000, so "2E3-03-05" is 5 March 2000 in Java but is refused here), other Unicode digits and the Julian calendar before the 1582 Gregorian cutover are not modelled;
  - dates are proleptic Gregorian with year at least 1 and at most 292278994.
- Dates.ParseWith: the calendar's upper bound is applied to the year alone. Dates late in year 292278994, past the last representable instant in milliseconds (17 August in UTC, shifted by the time zone), are not refused. MagmaDate is not part of this model; a date is its year, month and day.
- Dates.CompareValues: MagmaDate is not part of this model. Its `compareTo` is taken to be chronological, and to raise a null-pointer error on a null argument as `Comparable` requires.
- Dates: the full quoted pattern list in the failure message is defined by `QuotedList` and built by `DescribePatterns`, but it is not spelled out as one literal. `TemplatePatterns` gives each pattern.
- The DateType singleton and its registration, `now()` (which reads the clock), `isDateTime`, `isNumeric`, `getJavaClass` and `getName` are constants or engine plumbing.
- Several collaborators are parameters, not models:
  - value conversion between types (`ValueType.convert`);
  - the rendering and length of a value;
  - `SimpleDateFormat` pattern checking and parsing;
  - the document store.

  `Values.Convert` gives conversion the null- and sequence-preserving shape the code relies on. The type factory's lookup by name is modelled as failing with an unknown-type error for names no type has.
- ScriptableValueMethods: the script engine's wrapping of values and the warning logged for extra arguments are not modelled.
- StaticDatasource: `initialise` (it initialises each table, which this model does not describe), `getName` and the writers' no-op `close` are left out.
  - The static value table is not part of this model. Its variables are an ordered map by name, its entities a duplicate-free list, and its values a map by entity identifier and variable name.
  - A table is identified by a counter kept in the datasource. A table a writer writes to after it was dropped or replaced is not kept anywhere, so filing that same table again shows none of those writes.
- NullTimestamps' singleton `get()` and its weak-reference registration are engine plumbing.
- MongoValueSource: the decoding of stored documents (`VariableConverter`, `ValueConverter`) and the query documents are folded into the backend's `findVariable` and `read`. A failure of either is one `Error`.
- MongoValueSource.GetValue: the value set is its row entity. The cast of the value set to the store's own class and the value set's own read are the backend's `read`.
- ValueSetState: the persistence mapping and the `synchronized` modifier are not modelled. The map is an immutable Dafny value, which is what the unmodifiable wrapper provides.
- ExcelDatasource: file and workbook input/output (`onDispose`, opening the file), cell styles and `initialiseValueTable` are left out.
  - The datasource base class's table registry is a plain map.
  - Header cells are taken as contiguous texts; rows with missing cells are not modelled.
  - Sheet-name validation by the spreadsheet library is not modelled, and case-insensitive lookup uses ASCII letter case only.
- ExcelDatasource.AttributeLocale: the locale is its lower-cased language code only. Java's mapping of legacy language codes (such as "he" to "iw") is not modelled.
- ExcludeAllFilter: the filter base class and the filter chain are not part of this model. `Passes` states the chain rule that include and exclude filters combine by, so that the effect of this filter can be stated.

## Findings

| source | as written | input that shows it | evidently intended | confidence | as-written member | corrected member |
|---|---|---|---|---|---|---|
| magma-js/src/main/java/org/obiba/magma/js/methods/ScriptableValueMethods.java:136-144 | Each element of a non-null sequence is read from the text of the whole sequence (`textValue`); the element (`input`) is unused. | A two-element text sequence whose second element is a different date from what the whole text reads as. Every element of the result is that one date. | Each element is read from its own text. | not executed | ScriptableValueMethods.WholeTextDiffersFromElementText | ScriptableValueMethods.DateValueOfElementwise |
| datasource-excel/src/main/java/org/obiba/magma/datasource/excel/ExcelDatasource.java:170 | The reserved-name check asks whether the list of reserved names contains the set being built, which is never the case, so every header text is kept. | Variables-sheet headers "name" and "label": "name" is reported as a custom attribute although it is reserved. | Only header texts not in the reserved list are kept. | not executed | ExcelDatasource.ReservedHeaderKept | ExcelDatasource.CustomAttributeNames |

`DateOf` keeps the as-written sequence reading, because that is what scripts observe. `DateValueOfElementwise` is the corrected reading, with its element-wise property proved.
