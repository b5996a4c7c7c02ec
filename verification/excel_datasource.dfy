/** The naming helpers of the spreadsheet datasource. The workbook is its list
    of sheet names in order; a sheet is found by its position. Sheet lookup
    ignores letter case, as the spreadsheet library does, while the reserved
    sheet names are compared exactly. */
module ExcelDatasource {
  import opened Wrappers
  import opened Values
  import opened Text

  /** The sheet names of a workbook, in order. */
  type Workbook = seq<string>

  /** Column headers of the variables sheet that are not custom attributes. */
  const VariablesReservedAttributeNames: seq<string> :=
    ["table", "name", "valueType", "entityType", "mimeType", "unit", "occurrenceGroup", "repeatable"]

  /** Column headers of the categories sheet that are not custom attributes. */
  const CategoriesReservedAttributeNames: seq<string> := ["table", "variable", "name", "code", "missing"]

  /** The sheets that hold the dictionary rather than a table. */
  const SheetReservedNames: set<string> := {"Variables", "Categories"}

  // ---------------------------------------------------------------------------
  // Attribute names of the form name:locale

  /** `getAttributeShortName`: the first piece of the name split on ':'. A name
      made only of ':' splits into no piece at all, and asking for the first
      piece fails. */
  function AttributeShortName(attributeName: string): (r: Result<string, Error>)
    ensures r.Err? <==> |attributeName| > 0 && !HasOther(attributeName, ':')
    ensures r.Err? ==> r.error == IndexOutOfBounds(0)
    ensures r.Ok? ==> r.value == BeforeFirst(attributeName, ':')
  {
    SplitIsEmpty(attributeName, ':');
    var parts := Split(attributeName, ':');
    if |parts| == 0 then Err(IndexOutOfBounds(0))
    else
      SplitHead(attributeName, ':');
      Ok(parts[0])
  }

  /** `getAttributeLocale`: the language made from the second piece of the name
      split on ':' (language codes are lower-cased), or none when there is no
      second piece; any further piece is ignored. */
  function AttributeLocale(attributeName: string): (r: Option<string>)
    ensures r.Some? <==> ':' in attributeName && HasOther(AfterFirst(attributeName, ':'), ':')
    ensures r.Some? ==> r.value == Lower(BeforeFirst(AfterFirst(attributeName, ':'), ':'))
  {
    SplitSecond(attributeName, ':');
    var parts := Split(attributeName, ':');
    if |parts| > 1 then Some(Lower(parts[1])) else None
  }

  /** A name written `short:lang` with neither part containing ':' splits back
      into its parts, the language lower-cased. */
  lemma AttributeNameParts(short: string, lang: string)
    requires ':' !in short && ':' !in lang && |lang| > 0
    ensures AttributeShortName(short + [':'] + lang) == Ok(short)
    ensures AttributeLocale(short + [':'] + lang) == Some(Lower(lang))
  {
    var s := short + [':'] + lang;
    FirstSeparatorAt(short, lang, ':');
    assert HasOther(lang, ':') by { assert lang[0] != ':'; }
  }

  /** A name with no ':' is its own short name and carries no locale. */
  lemma AttributeNameWithoutLocale(name: string)
    requires ':' !in name
    ensures AttributeShortName(name) == Ok(name)
    ensures AttributeLocale(name).None?
  {
  }

  /** In `a + [sep] + b` with no `sep` in `a`, the first separator is the one
      written between the parts. */
  lemma FirstSeparatorAt(a: string, b: string, sep: char)
    requires sep !in a
    ensures sep in a + [sep] + b
    ensures BeforeFirst(a + [sep] + b, sep) == a
    ensures AfterFirst(a + [sep] + b, sep) == b
  {
    var s := a + [sep] + b;
    assert s[|a|] == sep;
    assert forall j :: 0 <= j < |a| ==> s[j] == a[j];
    assert forall j :: |a| < j <= |s| ==> s[..j][|a|] == sep;
  }

  // ---------------------------------------------------------------------------
  // Sheets

  /** The position of the first sheet whose name matches `name` up to letter
      case, as the spreadsheet library's lookup does; None when there is none. */
  function GetSheet(wb: Workbook, name: string): (r: Option<nat>)
    ensures r.Some? ==> r.value < |wb| && SameIgnoringCase(wb[r.value], name)
    ensures r.Some? ==> forall j :: 0 <= j < r.value ==> !SameIgnoringCase(wb[j], name)
    ensures r.None? <==> forall j :: 0 <= j < |wb| ==> !SameIgnoringCase(wb[j], name)
  {
    if |wb| == 0 then None
    else if SameIgnoringCase(wb[0], name) then Some(0)
    else
      match GetSheet(wb[1..], name)
      case None => None
      case Some(i) => Some(i + 1)
  }

  /** `createSheetIfNotExist`: the sheet matching `name`, created at the end
      when there is none. */
  function CreateSheetIfNotExist(wb: Workbook, name: string): (r: (Workbook, nat))
    ensures r.1 < |r.0| && SameIgnoringCase(r.0[r.1], name)
    ensures GetSheet(wb, name).Some? ==> r == (wb, GetSheet(wb, name).value)
    ensures GetSheet(wb, name).None? ==> r == (wb + [name], |wb|)
  {
    match GetSheet(wb, name)
    case Some(i) => (wb, i)
    case None => (wb + [name], |wb|)
  }

  /** Asking again for the same sheet finds the one already there. */
  lemma CreateSheetIdempotent(wb: Workbook, name: string)
    ensures var (wb1, i) := CreateSheetIfNotExist(wb, name);
      CreateSheetIfNotExist(wb1, name) == (wb1, i)
  {
    var (wb1, i) := CreateSheetIfNotExist(wb, name);
    if GetSheet(wb, name).None? {
      NoMatchBefore(wb, name);
    }
  }

  lemma NoMatchBefore(wb: Workbook, name: string)
    requires GetSheet(wb, name).None?
    ensures GetSheet(wb + [name], name) == Some(|wb|)
  {
    var w := wb + [name];
    assert forall j :: 0 <= j < |wb| ==> w[j] == wb[j];
    assert SameIgnoringCase(w[|wb|], name);
  }

  /** `getValueTableNames`: every sheet name except the reserved ones, which
      are compared with their exact letter case. */
  function ValueTableNames(wb: Workbook): (r: set<string>)
    ensures forall n :: n in r <==> n in wb && n !in SheetReservedNames
  {
    set n | n in wb && n !in SheetReservedNames
  }

  /** The datasource after initialisation: the workbook (read from the file,
      or empty when there is no file) and its two dictionary sheets. */
  datatype Excel = Excel(wb: Workbook, variablesSheet: nat, categoriesSheet: nat, tables: map<string, ExcelTable>)

  /** A table backed by a sheet. */
  datatype ExcelTable = ExcelTable(name: string, sheet: nat, entityType: string)

  /** `onInitialise`, from the workbook read: the variables sheet and then the
      categories sheet are found or created. */
  function Initialise(wb: Workbook): (r: Excel)
    ensures r.variablesSheet < |r.wb| && SameIgnoringCase(r.wb[r.variablesSheet], "Variables")
    ensures r.categoriesSheet < |r.wb| && SameIgnoringCase(r.wb[r.categoriesSheet], "Categories")
    ensures |wb| <= |r.wb| <= |wb| + 2 && r.wb[..|wb|] == wb
    ensures r.tables == map[]
  {
    var (wb1, v) := CreateSheetIfNotExist(wb, "Variables");
    var (wb2, c) := CreateSheetIfNotExist(wb1, "Categories");
    assert wb2[..|wb1|] == wb1;
    Excel(wb2, v, c, map[])
  }

  /** The reserved sheets never name tables. */
  lemma InitialisedTableNames(wb: Workbook)
    ensures "Variables" !in ValueTableNames(Initialise(wb).wb)
    ensures "Categories" !in ValueTableNames(Initialise(wb).wb)
    ensures forall n :: n in wb && n !in SheetReservedNames ==> n in ValueTableNames(Initialise(wb).wb)
  {
    var r := Initialise(wb);
    forall n | n in wb && n !in SheetReservedNames
      ensures n in r.wb
    {
      var i :| 0 <= i < |wb| && wb[i] == n;
      assert r.wb[..|wb|][i] == n;
    }
  }

  /** `createWriter`: an existing table is reused; otherwise a table backed by
      the sheet of that name (found or created) is added. */
  function CreateWriter(ds: Excel, name: string, entityType: string): (r: (Excel, ExcelTable))
    ensures name in ds.tables ==> r == (ds, ds.tables[name])
    ensures name !in ds.tables ==>
      && r.0.tables == ds.tables[name := r.1]
      && r.1.name == name && r.1.entityType == entityType
      && (r.0.wb, r.1.sheet) == CreateSheetIfNotExist(ds.wb, name)
    ensures r.1.sheet < |r.0.wb| || name in ds.tables
    ensures name in r.0.tables && r.0.tables[name] == r.1
  {
    if name in ds.tables then (ds, ds.tables[name])
    else
      var (wb1, i) := CreateSheetIfNotExist(ds.wb, name);
      var t := ExcelTable(name, i, entityType);
      (ds.(wb := wb1, tables := ds.tables[name := t]), t)
  }

  /** A second writer for the same table neither adds a table nor a sheet. */
  lemma CreateWriterTwice(ds: Excel, name: string, entityType: string, entityType2: string)
    ensures var (ds1, t) := CreateWriter(ds, name, entityType);
      CreateWriter(ds1, name, entityType2) == (ds1, t)
  {
  }

  // ---------------------------------------------------------------------------
  // Header rows

  /** The last position of `h` in `header`. */
  function LastIndexOf(header: seq<string>, h: string): (r: Option<nat>)
    ensures r.None? <==> h !in header
    ensures r.Some? ==> r.value < |header| && header[r.value] == h
    ensures r.Some? ==> forall j :: r.value < j < |header| ==> header[j] != h
  {
    if |header| == 0 then None
    else if header[|header| - 1] == h then Some(|header| - 1)
    else
      var r := LastIndexOf(header[..|header| - 1], h);
      assert forall j :: 0 <= j < |header| - 1 ==> header[..|header| - 1][j] == header[j];
      r
  }

  /** `mapSheetHeader`: each header text to its column; when a text repeats,
      the later column wins. */
  method MapSheetHeader(header: seq<string>) returns (m: map<string, nat>)
    ensures forall h :: h in m <==> h in header
    ensures forall h :: h in m ==> LastIndexOf(header, h) == Some(m[h])
  {
    m := map[];
    for i := 0 to |header|
      invariant forall h :: h in m <==> h in header[..i]
      invariant forall h :: h in m ==> LastIndexOf(header[..i], h) == Some(m[h])
    {
      assert header[..i + 1][..i] == header[..i];
      assert header[..i + 1] == header[..i] + [header[i]];
      m := m[header[i] := i];
    }
    assert header[..|header|] == header;
  }

  /** A Java object as far as `List.contains` can tell: a string, or a set of
      strings. */
  datatype JavaObject = JavaString(s: string) | JavaStringSet(elements: set<string>)

  /** `List.contains` on a list of strings: some element equals the object.
      A string never equals a set. */
  predicate ListContains(list: seq<string>, o: JavaObject) {
    exists i :: 0 <= i < |list| && JavaString(list[i]) == o
  }

  /** `getCustomAttributeNames` as written: the loop asks whether the reserved
      list contains the set being built, which is never so, and therefore keeps
      every header text, reserved ones included. */
  method CustomAttributeNamesAsWritten(header: seq<string>, reserved: seq<string>) returns (names: set<string>)
    ensures forall h :: h in names <==> h in header
  {
    names := {};
    for i := 0 to |header|
      invariant forall h :: h in names <==> h in header[..i]
    {
      assert header[..i + 1] == header[..i] + [header[i]];
      if !ListContains(reserved, JavaStringSet(names)) {
        names := names + {header[i]};
      }
    }
    assert header[..|header|] == header;
  }

  /** The discrepancy: a variables sheet with a reserved column ("name") next
      to a custom one ("label") reports the reserved column as custom too. */
  method ReservedHeaderKept() returns (names: set<string>)
    ensures "name" in names && "name" in VariablesReservedAttributeNames
  {
    names := CustomAttributeNamesAsWritten(["name", "label"], VariablesReservedAttributeNames);
    assert "name" in ["name", "label"];
  }

  /** The evident intent: the header texts that are not reserved. */
  method CustomAttributeNames(header: seq<string>, reserved: seq<string>) returns (names: set<string>)
    ensures forall h :: h in names <==> h in header && h !in reserved
  {
    names := {};
    for i := 0 to |header|
      invariant forall h :: h in names <==> h in header[..i] && h !in reserved
    {
      assert header[..i + 1] == header[..i] + [header[i]];
      if !ListContains(reserved, JavaString(header[i])) {
        names := names + {header[i]};
      }
    }
    assert header[..|header|] == header;
  }
}
