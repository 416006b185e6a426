/**
 * `src/utils/excelParser.js` from the decoded table onward: resolving the header row into
 * column indexes, checking the required columns, building the part-number catalogue and
 * extracting the component rows of one part number.
 */
module ExcelParser {
  import opened Wrappers
  import opened JsStrings
  import opened Cells
  import opened Formatters

  // ----- Column mapping -----

  /** The semantic keys of COLUMN_MAPPINGS. */
  datatype Field =
    | PartNumber | HtsusMain | DescriptionPT | ComponentNum | Description | Quantity
    | HtsusComponent | Unit | CostUnit | CostTotal | Country

  /** COLUMN_MAPPINGS: the header label each key looks for. */
  function Label(f: Field): string {
    match f
    case PartNumber => "NUMPRODTERMINADO"
    case HtsusMain => "FRACCION_PT"
    case DescriptionPT => "DESCESPANOL_PT"
    case ComponentNum => "NUMCOMPONENTE"
    case Description => "DESCESPANOL"
    case Quantity => "CANTIDADCONSUMO"
    case HtsusComponent => "FRACCION"
    case Unit => "UNI_MED_SALDOS"
    case CostUnit => "COSTO_UNITARIO"
    case CostTotal => "COSTO_TOTAL"
    case Country => "PAISORIGEN"
  }

  /** The keys of COLUMN_MAPPINGS in declaration order. */
  const MappedFields: seq<Field> :=
    [PartNumber, HtsusMain, DescriptionPT, ComponentNum, Description, Quantity,
     HtsusComponent, Unit, CostUnit, CostTotal, Country]

  lemma AllFieldsMapped(f: Field)
    ensures f in MappedFields
  {
    match f
    case PartNumber => assert MappedFields[0] == f;
    case HtsusMain => assert MappedFields[1] == f;
    case DescriptionPT => assert MappedFields[2] == f;
    case ComponentNum => assert MappedFields[3] == f;
    case Description => assert MappedFields[4] == f;
    case Quantity => assert MappedFields[5] == f;
    case HtsusComponent => assert MappedFields[6] == f;
    case Unit => assert MappedFields[7] == f;
    case CostUnit => assert MappedFields[8] == f;
    case CostTotal => assert MappedFields[9] == f;
    case Country => assert MappedFields[10] == f;
  }

  /** The object `findColumnIndexes` returns: a column index, or -1, per key. */
  type ColumnIndexes = map<Field, int>

  /** The test `findIndex` applies to a header cell: truthy, and its trimmed text is the label. */
  predicate HeaderMatches(h: Cell, wanted: string) {
    Truthy(h) && Trim(Text(h)) == wanted
  }

  /** `r` is the first index whose header matches `wanted`, or -1 when none does. */
  predicate IsFirstMatch(headers: seq<Cell>, wanted: string, r: int) {
    (r == -1 && forall j :: 0 <= j < |headers| ==> !HeaderMatches(headers[j], wanted)) ||
    (0 <= r < |headers| && HeaderMatches(headers[r], wanted) &&
     forall j :: 0 <= j < r ==> !HeaderMatches(headers[j], wanted))
  }

  /** The search of `findIndex` from position `start` on. */
  function FindIndexFrom(headers: seq<Cell>, wanted: string, start: nat): (r: int)
    requires start <= |headers|
    ensures r == -1 || start <= r < |headers|
    ensures r == -1 ==> forall j :: start <= j < |headers| ==> !HeaderMatches(headers[j], wanted)
    ensures r != -1 ==> HeaderMatches(headers[r], wanted)
    ensures r != -1 ==> forall j :: start <= j < r ==> !HeaderMatches(headers[j], wanted)
    decreases |headers| - start
  {
    if start == |headers| then -1
    else if HeaderMatches(headers[start], wanted) then start
    else FindIndexFrom(headers, wanted, start + 1)
  }

  /** `headers.findIndex(h => h && String(h).trim() === label)`. */
  function FindIndex(headers: seq<Cell>, wanted: string): (r: int)
    ensures IsFirstMatch(headers, wanted, r)
  {
    FindIndexFrom(headers, wanted, 0)
  }

  lemma FirstMatchUnique(headers: seq<Cell>, wanted: string, r1: int, r2: int)
    requires IsFirstMatch(headers, wanted, r1) && IsFirstMatch(headers, wanted, r2)
    ensures r1 == r2
  {
  }

  /** Every key resolved to its first exactly matching header, or to -1. */
  predicate Resolves(headers: seq<Cell>, indexes: ColumnIndexes) {
    (forall f: Field :: f in indexes) &&
    forall f :: f in indexes ==> IsFirstMatch(headers, Label(f), indexes[f])
  }

  /** The indexes object as a value. */
  function ColumnIndexesOf(headers: seq<Cell>): ColumnIndexes {
    map f | f in MappedFields :: FindIndex(headers, Label(f))
  }

  /**
   * `findColumnIndexes`: fills one key at a time, in the order of COLUMN_MAPPINGS, with the
   * position of the first header cell whose trimmed text is exactly that key's label.
   */
  method FindColumnIndexes(headers: seq<Cell>) returns (indexes: ColumnIndexes)
    ensures Resolves(headers, indexes)
    ensures indexes == ColumnIndexesOf(headers)
  {
    indexes := map[];
    for k := 0 to |MappedFields|
      invariant forall f :: f in indexes <==> f in MappedFields[..k]
      invariant forall f :: f in indexes ==> indexes[f] == FindIndex(headers, Label(f))
    {
      var key := MappedFields[k];
      indexes := indexes[key := FindIndex(headers, Label(key))];
    }
    forall f: Field ensures f in indexes {
      AllFieldsMapped(f);
      assert MappedFields[..|MappedFields|] == MappedFields;
    }
  }

  /** Labels are pairwise different, so no header cell can serve two keys. */
  lemma OneKeyPerColumn(headers: seq<Cell>, indexes: ColumnIndexes, f: Field, g: Field)
    requires Resolves(headers, indexes)
    requires indexes[f] >= 0 && indexes[f] == indexes[g]
    ensures f == g
  {
    assert Label(f) == Label(g);
  }

  /** A key resolves only to a header cell whose trimmed text is exactly the key's label. */
  lemma ResolvedHeaderCarriesLabel(headers: seq<Cell>, indexes: ColumnIndexes, f: Field)
    requires Resolves(headers, indexes) && indexes[f] >= 0
    ensures indexes[f] < |headers| && Truthy(headers[indexes[f]])
    ensures Trim(Text(headers[indexes[f]])) == Label(f)
  {
    assert IsFirstMatch(headers, Label(f), indexes[f]);
  }

  /**
   * Matching is exact: a header cell carrying one key's label resolves no other key. In
   * particular a FRACCION header never resolves the finished part's FRACCION_PT, nor a
   * DESCESPANOL header the finished part's DESCESPANOL_PT, and the reverse holds too.
   */
  lemma LabelResolvesOnlyItsKey(headers: seq<Cell>, indexes: ColumnIndexes, i: int, f: Field, g: Field)
    requires Resolves(headers, indexes) && 0 <= i < |headers|
    requires Trim(Text(headers[i])) == Label(f) && f != g
    ensures indexes[g] != i
  {
    assert IsFirstMatch(headers, Label(g), indexes[g]);
    assert Label(f) != Label(g);
  }

  // ----- Required columns -----

  /** The required keys with the names used to report them, in reporting order. */
  const RequiredColumns: seq<(Field, string)> :=
    [(PartNumber, "Part Number"), (HtsusMain, "HTSUS Principal"),
     (CostTotal, "Costo Total"), (Country, "País Origen")]

  /** `colIndexes[key] === -1`: an absent key reads as `undefined`, which is not -1. */
  predicate IsMissing(indexes: ColumnIndexes, f: Field) {
    f in indexes && indexes[f] == -1
  }

  /** The names of the required columns of `cols` that are missing, in order. */
  function MissingAmong(cols: seq<(Field, string)>, indexes: ColumnIndexes): seq<string> {
    if cols == [] then []
    else
      var last := cols[|cols| - 1];
      MissingAmong(cols[..|cols| - 1], indexes) + (if IsMissing(indexes, last.0) then [last.1] else [])
  }

  /** The four required columns, each reported by name when missing, in a fixed order. */
  function MissingColumns(indexes: ColumnIndexes): seq<string> {
    (if IsMissing(indexes, PartNumber) then ["Part Number"] else []) +
    (if IsMissing(indexes, HtsusMain) then ["HTSUS Principal"] else []) +
    (if IsMissing(indexes, CostTotal) then ["Costo Total"] else []) +
    (if IsMissing(indexes, Country) then ["País Origen"] else [])
  }

  /** Scanning the four required columns in order reports exactly `MissingColumns`. */
  lemma MissingAmongRequired(indexes: ColumnIndexes)
    ensures MissingAmong(RequiredColumns, indexes) == MissingColumns(indexes)
  {
    var c := RequiredColumns;
    var m0 := if IsMissing(indexes, PartNumber) then ["Part Number"] else [];
    var m1 := if IsMissing(indexes, HtsusMain) then ["HTSUS Principal"] else [];
    var m2 := if IsMissing(indexes, CostTotal) then ["Costo Total"] else [];
    var m3 := if IsMissing(indexes, Country) then ["País Origen"] else [];
    assert c[..1][..0] == [];
    assert MissingAmong(c[..1], indexes) == m0;
    assert c[..2][..1] == c[..1];
    assert MissingAmong(c[..2], indexes) == m0 + m1;
    assert c[..3][..2] == c[..2];
    assert MissingAmong(c[..3], indexes) == m0 + m1 + m2;
    assert c[..3] == c[..|c| - 1];
  }

  /** `validateRequiredColumns`: the names of the required columns whose index is -1. */
  method ValidateRequiredColumns(indexes: ColumnIndexes) returns (missingCols: seq<string>)
    ensures missingCols == MissingColumns(indexes)
  {
    missingCols := [];
    for k := 0 to |RequiredColumns|
      invariant missingCols == MissingAmong(RequiredColumns[..k], indexes)
    {
      var (key, name) := RequiredColumns[k];
      assert RequiredColumns[..k + 1][..k] == RequiredColumns[..k];
      if key in indexes && indexes[key] == -1 {
        missingCols := missingCols + [name];
      }
    }
    assert RequiredColumns[..|RequiredColumns|] == RequiredColumns;
    MissingAmongRequired(indexes);
  }

  /** The required keys. */
  predicate IsRequired(f: Field) {
    f == PartNumber || f == HtsusMain || f == CostTotal || f == Country
  }

  /** Over a resolved header row, a key is missing exactly when no header cell carries its label. */
  lemma MissingIffNoHeader(headers: seq<Cell>, f: Field)
    ensures IsMissing(ColumnIndexesOf(headers), f) <==>
      forall j :: 0 <= j < |headers| ==> !HeaderMatches(headers[j], Label(f))
  {
    AllFieldsMapped(f);
  }

  /** Nothing is reported iff no required key is missing; optional keys are never reported. */
  lemma MissingColumnsEmptyIffResolved(indexes: ColumnIndexes)
    ensures MissingColumns(indexes) == [] <==> forall f :: IsRequired(f) ==> !IsMissing(indexes, f)
  {
  }

  /** Over a header row, nothing is reported iff every required label is carried by some header cell. */
  lemma MissingColumnsEmptyIffRequiredPresent(headers: seq<Cell>)
    ensures MissingColumns(ColumnIndexesOf(headers)) == [] <==>
      forall f :: IsRequired(f) ==> exists j :: 0 <= j < |headers| && HeaderMatches(headers[j], Label(f))
  {
    var indexes := ColumnIndexesOf(headers);
    MissingColumnsEmptyIffResolved(indexes);
    forall f | IsRequired(f)
      ensures !IsMissing(indexes, f) <==> exists j :: 0 <= j < |headers| && HeaderMatches(headers[j], Label(f))
    {
      MissingIffNoHeader(headers, f);
    }
  }

  // ----- Part-number catalogue -----

  /** One entry of the part-number catalogue. */
  datatype PartEntry = PartEntry(partNumber: Cell, description: Cell, htsus: string)

  const NoDescription: string := "Sin descripción"

  /** `row[colIndexes[f]]`. */
  function Column(row: Row, indexes: ColumnIndexes, f: Field): Cell {
    if f in indexes then CellAt(row, indexes[f]) else Empty
  }

  /** A data row the catalogue looks at: not empty, with a truthy part-number cell. */
  predicate Listed(row: Row, indexes: ColumnIndexes) {
    |row| > 0 && Truthy(Column(row, indexes, PartNumber))
  }

  /** The catalogue entry a row would create. */
  function EntryOf(row: Row, indexes: ColumnIndexes): PartEntry {
    var desc := Column(row, indexes, DescriptionPT);
    PartEntry(
      Column(row, indexes, PartNumber),
      if Truthy(desc) then desc else Str(NoDescription),
      FormatHTSUS(Column(row, indexes, HtsusMain)))
  }

  /** Some listed data row before row `n` carries part number `pn`. */
  predicate SeenBefore(table: Table, indexes: ColumnIndexes, pn: Cell, n: int) {
    exists j :: 1 <= j < n && j < |table| && Listed(table[j], indexes) &&
      Column(table[j], indexes, PartNumber) == pn
  }

  /** Row `i` is the first listed data row with its part number. */
  predicate FirstOccurrence(table: Table, indexes: ColumnIndexes, i: int) {
    1 <= i < |table| && Listed(table[i], indexes) &&
    !SeenBefore(table, indexes, Column(table[i], indexes, PartNumber), i)
  }

  /** The data rows below `n` that are first occurrences, in ascending order. */
  function FirstRows(table: Table, indexes: ColumnIndexes, n: nat): (rows: seq<nat>)
    requires n <= |table|
    ensures forall k :: 0 <= k < |rows| ==> 1 <= rows[k] < n
    ensures forall k, l :: 0 <= k < l < |rows| ==> rows[k] < rows[l]
    ensures forall i :: i in rows <==> 0 <= i < n && FirstOccurrence(table, indexes, i)
  {
    if n <= 1 then []
    else FirstRows(table, indexes, n - 1) + (if FirstOccurrence(table, indexes, n - 1) then [n - 1] else [])
  }

  /** The catalogue after scanning the rows below `n`. */
  function CatalogueUpTo(table: Table, indexes: ColumnIndexes, n: nat): seq<PartEntry>
    requires n <= |table|
  {
    if n <= 1 then []
    else
      CatalogueUpTo(table, indexes, n - 1) +
      (if FirstOccurrence(table, indexes, n - 1) then [EntryOf(table[n - 1], indexes)] else [])
  }

  /** The part numbers a catalogue holds: the keys of the `Map`. */
  function Keys(entries: seq<PartEntry>): set<Cell> {
    set e | e in entries :: e.partNumber
  }

  lemma {:induction false} CatalogueKeys(table: Table, indexes: ColumnIndexes, n: nat)
    requires n <= |table|
    ensures forall pn :: pn in Keys(CatalogueUpTo(table, indexes, n)) <==> SeenBefore(table, indexes, pn, n)
  {
    if n > 1 {
      CatalogueKeys(table, indexes, n - 1);
      var prev := CatalogueUpTo(table, indexes, n - 1);
      var cur := CatalogueUpTo(table, indexes, n);
      var pnLast := Column(table[n - 1], indexes, PartNumber);
      forall pn ensures pn in Keys(cur) <==> SeenBefore(table, indexes, pn, n) {
        if pn in Keys(cur) {
          var e :| e in cur && e.partNumber == pn;
          if e in prev {
            assert pn in Keys(prev);
            var j :| 1 <= j < n - 1 && j < |table| && Listed(table[j], indexes) && Column(table[j], indexes, PartNumber) == pn;
          } else {
            assert Listed(table[n - 1], indexes) && pnLast == pn;
          }
        }
        if SeenBefore(table, indexes, pn, n) {
          var j :| 1 <= j < n && j < |table| && Listed(table[j], indexes) && Column(table[j], indexes, PartNumber) == pn;
          if j < n - 1 {
            assert SeenBefore(table, indexes, pn, n - 1);
          } else if !SeenBefore(table, indexes, pn, n - 1) {
            assert FirstOccurrence(table, indexes, n - 1);
            assert cur[|cur| - 1] == EntryOf(table[n - 1], indexes);
          }
        }
      }
    }
  }

  /** The catalogue is the entry of each first occurrence, in row order. */
  lemma {:induction false} CatalogueFollowsFirstRows(table: Table, indexes: ColumnIndexes, n: nat)
    requires n <= |table|
    ensures var cat, rows := CatalogueUpTo(table, indexes, n), FirstRows(table, indexes, n);
      |cat| == |rows| && forall k :: 0 <= k < |rows| ==> cat[k] == EntryOf(table[rows[k]], indexes)
  {
    if n > 1 {
      CatalogueFollowsFirstRows(table, indexes, n - 1);
    }
  }

  /** No part number appears twice. */
  predicate DistinctKeys(entries: seq<PartEntry>) {
    forall k, l :: 0 <= k < l < |entries| ==> entries[k].partNumber != entries[l].partNumber
  }

  /** No part number appears twice in the catalogue. */
  lemma {:induction false} CatalogueDistinct(table: Table, indexes: ColumnIndexes, n: nat)
    requires n <= |table|
    ensures DistinctKeys(CatalogueUpTo(table, indexes, n))
  {
    if n > 1 {
      CatalogueDistinct(table, indexes, n - 1);
      CatalogueKeys(table, indexes, n - 1);
      var prev := CatalogueUpTo(table, indexes, n - 1);
      var cat := CatalogueUpTo(table, indexes, n);
      if FirstOccurrence(table, indexes, n - 1) {
        var x := EntryOf(table[n - 1], indexes);
        assert cat == prev + [x];
        assert x.partNumber !in Keys(prev);
        forall k, l | 0 <= k < l < |cat| ensures cat[k].partNumber != cat[l].partNumber {
          assert cat[k] == prev[k];
          if l == |prev| {
            assert prev[k].partNumber in Keys(prev);
          }
        }
      }
    }
  }

  /** The catalogue of a whole table. */
  function Catalogue(table: Table, indexes: ColumnIndexes): seq<PartEntry> {
    CatalogueUpTo(table, indexes, |table|)
  }

  /**
   * Every listed data row's part number is catalogued, with the description and main tariff code
   * of the first row that carries it: later rows never overwrite an entry.
   */
  lemma FirstOccurrenceWins(table: Table, indexes: ColumnIndexes, i: int)
    requires 1 <= i < |table| && Listed(table[i], indexes)
    ensures exists f :: (1 <= f <= i && FirstOccurrence(table, indexes, f) &&
                         Column(table[f], indexes, PartNumber) == Column(table[i], indexes, PartNumber) &&
                         EntryOf(table[f], indexes) in Catalogue(table, indexes))
  {
    var pn := Column(table[i], indexes, PartNumber);
    var f := FirstWith(table, indexes, pn, i);
    var rows := FirstRows(table, indexes, |table|);
    CatalogueFollowsFirstRows(table, indexes, |table|);
    assert f in rows;
    var k :| 0 <= k < |rows| && rows[k] == f;
    assert Catalogue(table, indexes)[k] == EntryOf(table[f], indexes);
  }

  /** The first listed row up to `i` carrying `pn`, given that row `i` carries it. */
  lemma {:induction false} FirstWith(table: Table, indexes: ColumnIndexes, pn: Cell, i: int) returns (f: int)
    requires 1 <= i < |table| && Listed(table[i], indexes) && Column(table[i], indexes, PartNumber) == pn
    ensures 1 <= f <= i && FirstOccurrence(table, indexes, f) && Column(table[f], indexes, PartNumber) == pn
    decreases i
  {
    if SeenBefore(table, indexes, pn, i) {
      var j :| 1 <= j < i && j < |table| && Listed(table[j], indexes) && Column(table[j], indexes, PartNumber) == pn;
      f := FirstWith(table, indexes, pn, j);
    } else {
      f := i;
    }
  }

  /** A table with only a header row (or none) has an empty catalogue. */
  lemma CatalogueOfHeaderOnly(table: Table, indexes: ColumnIndexes)
    requires |table| <= 1
    ensures Catalogue(table, indexes) == []
  {
  }

  /**
   * `extractPartNumbers`: scans the data rows, skipping empty ones and those without a part
   * number, and records each part number the first time it is seen.
   */
  method ExtractPartNumbers(table: Table, indexes: ColumnIndexes) returns (partNumbers: seq<PartEntry>)
    ensures partNumbers == Catalogue(table, indexes)
    ensures DistinctKeys(partNumbers)
  {
    // The Map, as its values in insertion order; every value carries its key.
    var entries: seq<PartEntry> := [];
    if |table| == 0 {
      return entries;
    }
    var i := 1;
    while i < |table|
      invariant 1 <= i <= |table|
      invariant entries == CatalogueUpTo(table, indexes, i)
    {
      var row := table[i];
      if |row| > 0 {
        var pn := Column(row, indexes, PartNumber);
        CatalogueKeys(table, indexes, i);
        if Truthy(pn) && pn !in Keys(entries) {
          entries := entries + [EntryOf(row, indexes)];
        }
      }
      i := i + 1;
    }
    partNumbers := entries;
    CatalogueDistinct(table, indexes, |table|);
  }

  // ----- Component extraction -----

  /**
   * One bill-of-materials line. `tariffShift` is absent (None) when extracted; the analysis
   * adds it later.
   */
  datatype Component = Component(
    componentNum: Cell,
    description: Cell,
    quantity: Cell,
    htsus: string,
    unit: Cell,
    costUnit: real,
    costTotal: real,
    country: string,
    tariffShift: Option<string>)

  /** `String(cell || "").trim().toUpperCase()`. */
  function NormalizeCountry(c: Cell): string {
    if Truthy(c) then ToUpper(Trim(Text(c))) else ""
  }

  /** The component a matching row becomes. */
  function ComponentOf(row: Row, indexes: ColumnIndexes): Component {
    Component(
      Column(row, indexes, ComponentNum),
      Column(row, indexes, Description),
      Column(row, indexes, Quantity),
      FormatHTSUS(Column(row, indexes, HtsusComponent)),
      Column(row, indexes, Unit),
      ParseCost(Column(row, indexes, CostUnit)),
      ParseCost(Column(row, indexes, CostTotal)),
      NormalizeCountry(Column(row, indexes, Country)),
      None)
  }

  /** Data row `i` is not empty and its part-number cell is strictly equal to the selection. */
  predicate Selected(table: Table, indexes: ColumnIndexes, selected: Cell, i: int) {
    1 <= i < |table| && |table[i]| > 0 && Column(table[i], indexes, PartNumber) == selected
  }

  function CostWarning(rowNumber: nat): string {
    "Fila " + NatToString(rowNumber) + ": Costo es 0 o inválido"
  }

  function CountryWarning(rowNumber: nat): string {
    "Fila " + NatToString(rowNumber) + ": País no especificado"
  }

  /** The warnings one extracted row raises; `rowNumber` is the 1-based spreadsheet row. */
  function RowWarnings(rowNumber: nat, c: Component): seq<string> {
    (if c.costTotal == 0.0 then [CostWarning(rowNumber)] else []) +
    (if c.country == "" then [CountryWarning(rowNumber)] else [])
  }

  /** The selected data rows below `n`, in ascending order. */
  function SelectedRows(table: Table, indexes: ColumnIndexes, selected: Cell, n: nat): (rows: seq<nat>)
    requires n <= |table|
    ensures forall k :: 0 <= k < |rows| ==> 1 <= rows[k] < n
    ensures forall k, l :: 0 <= k < l < |rows| ==> rows[k] < rows[l]
    ensures forall i :: i in rows <==> 0 <= i < n && Selected(table, indexes, selected, i)
  {
    if n <= 1 then []
    else
      SelectedRows(table, indexes, selected, n - 1) +
      (if Selected(table, indexes, selected, n - 1) then [n - 1] else [])
  }

  /** The components and warnings after scanning the rows below `n`. */
  function ExtractionUpTo(table: Table, indexes: ColumnIndexes, selected: Cell, n: nat): (r: (seq<Component>, seq<string>))
    requires n <= |table|
  {
    if n <= 1 then ([], [])
    else
      var prev := ExtractionUpTo(table, indexes, selected, n - 1);
      if Selected(table, indexes, selected, n - 1) then
        var c := ComponentOf(table[n - 1], indexes);
        (prev.0 + [c], prev.1 + RowWarnings(n, c))
      else
        prev
  }

  /** The warnings of the given rows with their components, concatenated in order. */
  function WarningsOf(rows: seq<nat>, comps: seq<Component>): seq<string>
    requires |rows| == |comps|
  {
    if rows == [] then []
    else WarningsOf(rows[..|rows| - 1], comps[..|comps| - 1]) + RowWarnings(rows[|rows| - 1] + 1, comps[|comps| - 1])
  }

  /** `cs` holds, in order, the component of each of the given rows. */
  predicate ComponentsOfRows(table: Table, indexes: ColumnIndexes, rows: seq<nat>, cs: seq<Component>) {
    |cs| == |rows| && forall k :: 0 <= k < |rows| ==> rows[k] < |table| && cs[k] == ComponentOf(table[rows[k]], indexes)
  }

  /**
   * Extraction yields exactly one component per selected row, in row order, normalised from
   * that row; the warnings are each row's own warnings in the same order.
   */
  lemma {:induction false} ExtractionFollowsSelectedRows(table: Table, indexes: ColumnIndexes, selected: Cell, n: nat)
    requires n <= |table|
    ensures ComponentsOfRows(table, indexes, SelectedRows(table, indexes, selected, n), ExtractionUpTo(table, indexes, selected, n).0)
    ensures ExtractionUpTo(table, indexes, selected, n).1 ==
      WarningsOf(SelectedRows(table, indexes, selected, n), ExtractionUpTo(table, indexes, selected, n).0)
  {
    if n > 1 {
      ExtractionFollowsSelectedRows(table, indexes, selected, n - 1);
      var prev := ExtractionUpTo(table, indexes, selected, n - 1);
      var prevRows := SelectedRows(table, indexes, selected, n - 1);
      if Selected(table, indexes, selected, n - 1) {
        var c := ComponentOf(table[n - 1], indexes);
        ComponentsOfRowsSnoc(table, indexes, prevRows, prev.0, n - 1);
        WarningsOfSnoc(prevRows, prev.0, n - 1, c);
      } else {
        assert ExtractionUpTo(table, indexes, selected, n) == prev;
        assert SelectedRows(table, indexes, selected, n) == prevRows;
      }
    }
  }

  lemma ComponentsOfRowsSnoc(table: Table, indexes: ColumnIndexes, rows: seq<nat>, cs: seq<Component>, i: nat)
    requires ComponentsOfRows(table, indexes, rows, cs) && i < |table|
    ensures ComponentsOfRows(table, indexes, rows + [i], cs + [ComponentOf(table[i], indexes)])
  {
  }

  lemma WarningsOfSnoc(rows: seq<nat>, cs: seq<Component>, i: nat, c: Component)
    requires |rows| == |cs|
    ensures WarningsOf(rows + [i], cs + [c]) == WarningsOf(rows, cs) + RowWarnings(i + 1, c)
  {
    assert (rows + [i])[..|rows|] == rows;
    assert (cs + [c])[..|cs|] == cs;
  }

  /** A row raises at most two warnings, so there are at most twice as many warnings as components. */
  lemma {:induction false} WarningsBounded(rows: seq<nat>, comps: seq<Component>)
    requires |rows| == |comps|
    ensures |WarningsOf(rows, comps)| <= 2 * |comps|
  {
    if rows != [] {
      WarningsBounded(rows[..|rows| - 1], comps[..|comps| - 1]);
    }
  }

  /** Extraction raises at most two warnings per component. */
  lemma ExtractionWarningsBounded(table: Table, indexes: ColumnIndexes, selected: Cell, n: nat)
    requires n <= |table|
    ensures |ExtractionUpTo(table, indexes, selected, n).1| <= 2 * |ExtractionUpTo(table, indexes, selected, n).0|
  {
    ExtractionFollowsSelectedRows(table, indexes, selected, n);
    WarningsBounded(SelectedRows(table, indexes, selected, n), ExtractionUpTo(table, indexes, selected, n).0);
  }

  /** The cost warning of a row is raised exactly when its total cost is 0; likewise the country warning for a blank country. */
  lemma RowWarningsExact(rowNumber: nat, c: Component)
    ensures CostWarning(rowNumber) in RowWarnings(rowNumber, c) <==> c.costTotal == 0.0
    ensures CountryWarning(rowNumber) in RowWarnings(rowNumber, c) <==> c.country == ""
  {
    var n := NatToString(rowNumber);
    var head := "Fila " + n;
    var cost, country := CostWarning(rowNumber), CountryWarning(rowNumber);
    assert cost == head + ": Costo es 0 o inválido";
    assert country == head + ": País no especificado";
    assert cost[|head| + 2] == 'C';
    assert country[|head| + 2] == 'P';
  }

  /**
   * `extractComponents`: keeps the non-empty data rows whose part-number cell is strictly equal
   * to the selection, normalises each into a component and collects its warnings.
   */
  method ExtractComponents(table: Table, indexes: ColumnIndexes, selected: Cell)
    returns (components: seq<Component>, errors: seq<string>)
    ensures (components, errors) == ExtractionUpTo(table, indexes, selected, |table|)
    ensures |errors| <= 2 * |components|
  {
    components, errors := [], [];
    if |table| == 0 {
      return;
    }
    var i := 1;
    while i < |table|
      invariant 1 <= i <= |table|
      invariant (components, errors) == ExtractionUpTo(table, indexes, selected, i)
    {
      var row := table[i];
      if |row| > 0 && Column(row, indexes, PartNumber) == selected {
        var costUnit := ParseCost(Column(row, indexes, CostUnit));
        var costTotal := ParseCost(Column(row, indexes, CostTotal));
        var country := NormalizeCountry(Column(row, indexes, Country));
        var htsusComp := FormatHTSUS(Column(row, indexes, HtsusComponent));
        ghost var before := errors;
        if costTotal == 0.0 {
          errors := errors + [CostWarning(i + 1)];
        }
        if country == "" {
          errors := errors + [CountryWarning(i + 1)];
        }
        components := components + [Component(
          Column(row, indexes, ComponentNum),
          Column(row, indexes, Description),
          Column(row, indexes, Quantity),
          htsusComp,
          Column(row, indexes, Unit),
          costUnit,
          costTotal,
          country,
          None)];
        assert components[|components| - 1] == ComponentOf(row, indexes);
        assert errors == before + RowWarnings(i + 1, ComponentOf(row, indexes));
      }
      i := i + 1;
    }
    ExtractionWarningsBounded(table, indexes, selected, |table|);
  }

  // ----- The post-read steps of parseExcelForUSMCA -----

  /** What `parseExcelForUSMCA` resolves to. */
  datatype ParseOutcome =
    | ParseFailure(error: string)
    | ParseSuccess(jsonData: Table, colIndexes: ColumnIndexes, partNumbers: seq<PartEntry>)

  /** The message of the TypeError raised by `findIndex` on the missing header row (V8's wording). */
  const HeaderlessError: string := "Cannot read properties of undefined (reading 'findIndex')"

  const MissingColumnsPrefix: string := "Columnas faltantes: "

  /**
   * `parseExcelForUSMCA` after the file has been decoded: resolve the header row, fail naming
   * the missing required columns, otherwise build the catalogue.
   */
  method ParseExcelForUSMCA(jsonData: Table) returns (r: ParseOutcome)
    ensures |jsonData| == 0 ==> r == ParseFailure(HeaderlessError)
    ensures |jsonData| > 0 ==>
      var indexes := ColumnIndexesOf(jsonData[0]);
      var missing := MissingColumns(indexes);
      r == if missing == [] then ParseSuccess(jsonData, indexes, Catalogue(jsonData, indexes))
           else ParseFailure(MissingColumnsPrefix + Join(missing, ", "))
    ensures r.ParseSuccess? ==> Resolves(r.jsonData[0], r.colIndexes)
    ensures r.ParseSuccess? ==> forall f :: IsRequired(f) ==> r.colIndexes[f] >= 0
  {
    if |jsonData| == 0 {
      return ParseFailure(HeaderlessError);
    }
    var headers := jsonData[0];
    var colIndexes := FindColumnIndexes(headers);
    var missingCols := ValidateRequiredColumns(colIndexes);
    if |missingCols| > 0 {
      return ParseFailure(MissingColumnsPrefix + Join(missingCols, ", "));
    }
    var partNumbers := ExtractPartNumbers(jsonData, colIndexes);
    r := ParseSuccess(jsonData, colIndexes, partNumbers);
    RequiredResolvedOnSuccess(headers, colIndexes);
  }

  /** When nothing is reported missing, every required key holds a real column position. */
  lemma RequiredResolvedOnSuccess(headers: seq<Cell>, indexes: ColumnIndexes)
    requires Resolves(headers, indexes) && MissingColumns(indexes) == []
    ensures forall f :: IsRequired(f) ==> indexes[f] >= 0
  {
    forall f | IsRequired(f) ensures indexes[f] >= 0 {
      assert IsFirstMatch(headers, Label(f), indexes[f]);
    }
  }
}
