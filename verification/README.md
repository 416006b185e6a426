# USMCA calculator: a verified model of the ingestion and RVC engine

This project models the engine of the USMCA regional-value-content (RVC) calculator in Dafny. Its scope starts once the spreadsheet has been decoded into an array of rows:

- **Header resolution.** The header row is mapped to column positions through the eleven `COLUMN_MAPPINGS` labels. The four required columns are then checked.
- **Catalogue.** A catalogue of finished part numbers is built, first occurrence first.
- **Components.** The bill-of-materials rows of the selected part number are extracted and normalised. Each row raises the Spanish warnings "Costo es 0 o inválido" and "País no especificado" where they apply.
- **Validation.** The declared total manufactured cost (TMC) is validated.
- **Calculation.** The engine computes:
  - the total materials and the non-originating materials;
  - the RVC percentage and the 60 % verdict;
  - the per-country breakdown, with labour and overhead folded into Mexico;
  - the per-country percentages;
  - the tariff-shift flag of every component.

Modules:
- `Wrappers` holds `Option`.
- `JsStrings` holds the JavaScript string built-ins that are used: `trim`, `toUpperCase`, `replace(/\./g, "")`, `padEnd`, `join`, `parseFloat`, `toFixed(2)` and row-number rendering.
- `Cells` holds decoded cell values: JavaScript truthiness, `String(c)`, `row[i]` and `parseFloat(c) || 0`.
- `Formatters` models `src/utils/formatters.js`.
- `ExcelParser` models `src/utils/excelParser.js`.
- `UsmcaCalculations` models `src/utils/usmcaCalculations.js`.

How the code is modelled:
- **Pure code.** Expressions and `reduce`/`map` become functions.
- **Loops.** The code that fills arrays, a `Map` or objects step by step becomes methods with loops. Each method is proved equal to a specification function, and lemmas prove what the source promises about that function.
- **Plain objects.** A JavaScript object used as a dictionary (`byCountry`, `countryPercentages`) is a `Dict`. A `Dict` holds its keys in insertion order plus a map from each key to its value. `obj[k] = v` is `Put`.
- **Numbers.** Costs are `real`.

## Model

| member | source | states |
|---|---|---|
| Formatters.TenDigits | src/utils/formatters.js:12-18 | ten characters, none a full stop: the input's text with full stops removed, right-padded with '0' and cut to ten |
| Formatters.FormatHTSUS | src/utils/formatters.js:8-22 | a falsy value gives ""; otherwise 12 characters with '.' at 4 and 7 and nowhere else, and removing the two dots gives the input's text without full stops, padded with '0' and cut to ten |
| Formatters.GroupRemoveDots | src/utils/formatters.js:21 | grouping ten dot-free characters as 4.2.4 and removing the dots gives the ten characters back |
| Formatters.FormatHTSUSIdempotent | src/utils/formatters.js:8-22 | formatting an already formatted code returns it unchanged |
| Formatters.FormatHTSUSPadsShortCode | src/utils/formatters.js:15-21 | "123456" is formatted as "1234.56.0000" |
| Formatters.FormatHTSUSCanonicalExample | src/utils/formatters.js:8-22 | "1234.56.7890" is formatted as itself |
| Formatters.FormatHTSUSKeepsHyphen | src/utils/formatters.js:12 | only full stops are stripped: "12-34" gives "12-3.40.0000" |
| Formatters.FormatHTSUSFalsyExamples | src/utils/formatters.js:9 | "", `undefined` and 0 all give "" |
| Formatters.IsUSMCACountry | src/utils/formatters.js:58-61 | `isUSMCACountry`: the country text is trimmed, upper-cased and looked up among MX, US, CA, MEXICO, USA, CANADA with `includes` |
| Formatters.IncludesIsMembership | src/utils/formatters.js:60 | `includes` is sequence membership |
| Formatters.IsUSMCACountryIsMembership | src/utils/formatters.js:58-61 | a country is in the bloc iff its trimmed, upper-cased text is one of MX, US, CA, MEXICO, USA, CANADA |
| Formatters.IsUSMCACountryIgnoresCase | src/utils/formatters.js:60 | two spellings equal up to letter case are classified alike |
| Formatters.IsUSMCACountryIgnoresPadding | src/utils/formatters.js:60 | white space around the country does not change the classification |
| JsStrings.TrimIgnoresPadding | src/utils/formatters.js:60 | `trim` removes any white-space prefix and suffix |
| JsStrings.TrimUpperCommute | src/utils/formatters.js:60 | `trim` and `toUpperCase` commute |
| JsStrings.ToUpperPointwise | src/utils/formatters.js:60 | upper-casing keeps the length and maps each character on its own |
| JsStrings.RemoveDotsAppend | src/utils/formatters.js:12 | removing full stops distributes over concatenation |
| JsStrings.RemoveDotsNoDots | src/utils/formatters.js:12 | removing full stops from a dot-free string is the identity |
| JsStrings.PadEnd | src/utils/formatters.js:15 | `padEnd` keeps the string as a prefix and fills up to the target length with the filler |
| Cells.ParseCost | src/utils/excelParser.js:146-147 | `parseFloat(cell) \|\| 0`: a number cell gives its value, a string is read by the decimal prefix parser, and `undefined`, booleans and unreadable text (NaN) give 0 |
| JsStrings.ParseFloatSignedExponent | src/utils/excelParser.js:146-147 | `parseFloat(" -1.5e2x")` skips the blank, reads sign, fraction and exponent, ignores the rest: -150 |
| JsStrings.UnsignedDecimalExample | src/utils/excelParser.js:146-147 | the unsigned literal "1.5e2" at the front of "1.5e2x" is read as 150 |
| JsStrings.ExponentExample | src/utils/excelParser.js:146-147 | an exponent suffix "e2x" is read as 2, stopping at its last digit |
| JsStrings.ParseFloatLeadingPoint | src/utils/excelParser.js:146-147 | `parseFloat(".5")` is 0.5 |
| JsStrings.ParseFloatUnsigned | src/utils/excelParser.js:146-147 | a text starting with neither a blank nor a sign is read as an unsigned literal |
| JsStrings.UnsignedLeadingPoint | src/utils/excelParser.js:146-147 | the unsigned literal ".5" is read as 0.5 |
| JsStrings.ParseFloatNoDigits | src/utils/excelParser.js:146-147 | `parseFloat("e5")` is NaN, so the cost becomes 0 |
| ExcelParser.AllFieldsMapped | src/utils/excelParser.js:8-20 | every key of the mapping is visited by the `forEach` |
| ExcelParser.FindIndex | src/utils/excelParser.js:63-65 | the result is the first index whose header cell is truthy and trims to the label, or -1 when there is none |
| ExcelParser.FindColumnIndexes | src/utils/excelParser.js:57-69 | every one of the eleven keys is set, each to the first exactly matching header position or -1 |
| ExcelParser.FirstMatchUnique | src/utils/excelParser.js:63-65 | the first-match index is unique |
| ExcelParser.OneKeyPerColumn | src/utils/excelParser.js:8-20 | no header cell resolves two different keys |
| ExcelParser.ResolvedHeaderCarriesLabel | src/utils/excelParser.js:63-65 | a resolved key points at a truthy header cell whose trimmed text is the label |
| ExcelParser.LabelResolvesOnlyItsKey | src/utils/excelParser.js:8-20 | matching is exact: a header carrying one key's label (e.g. FRACCION) never resolves another key (e.g. htsusMain's FRACCION_PT), and the reverse |
| ExcelParser.ValidateRequiredColumns | src/utils/excelParser.js:76-92 | returns the names of the required keys whose index is -1, in the order Part Number, HTSUS Principal, Costo Total, País Origen |
| ExcelParser.MissingAmongRequired | src/utils/excelParser.js:85-89 | the `forEach` over the four required columns reports exactly the fixed-order list |
| ExcelParser.MissingColumnsEmptyIffResolved | src/utils/excelParser.js:76-92 | nothing is reported iff no required key is -1; optional keys are never reported |
| ExcelParser.MissingIffNoHeader | src/utils/excelParser.js:63-65 | over a header row, a key is -1 exactly when no header cell matches its label |
| ExcelParser.MissingColumnsEmptyIffRequiredPresent | src/utils/excelParser.js:76-92 | over a header row, nothing is reported iff every required label is carried by some header cell |
| ExcelParser.EntryOf | src/utils/excelParser.js:114-118 | the catalogue entry of a row: its part-number cell, its description cell or "Sin descripción" when that cell is falsy, and the formatted main tariff code |
| ExcelParser.FirstRows | src/utils/excelParser.js:104-113 | the rows that add a catalogue entry are data rows (index >= 1), ascending, and exactly the first listed occurrences of their part number |
| ExcelParser.CatalogueKeys | src/utils/excelParser.js:113 | after scanning a prefix, the `Map` holds exactly the part numbers of the listed rows seen so far |
| ExcelParser.CatalogueFollowsFirstRows | src/utils/excelParser.js:113-118 | the catalogue is the entry of each first occurrence, in row order |
| ExcelParser.CatalogueDistinct | src/utils/excelParser.js:113 | no part number is catalogued twice |
| ExcelParser.FirstOccurrenceWins | src/utils/excelParser.js:113-118 | every listed row's part number is catalogued with the description ("Sin descripción" if falsy) and formatted main code of its first row; later rows never overwrite it |
| ExcelParser.FirstWith | src/utils/excelParser.js:113 | a listed row's part number has a first listed occurrence at or before it |
| ExcelParser.CatalogueOfHeaderOnly | src/utils/excelParser.js:104 | a table with only a header row gives an empty catalogue |
| ExcelParser.ExtractPartNumbers | src/utils/excelParser.js:100-123 | the loop builds exactly the catalogue, whose part numbers are pairwise distinct |
| ExcelParser.NormalizeCountry | src/utils/excelParser.js:148 | the country of a row: "" for a falsy cell, otherwise the cell's text trimmed and upper-cased |
| ExcelParser.ComponentOf | src/utils/excelParser.js:160-169 | the component a selected row becomes: component number, description, quantity and unit passed through, the formatted component code, the parsed unit and total costs (0 when unreadable), the normalised country, and no tariff-shift flag yet |
| ExcelParser.SelectedRows | src/utils/excelParser.js:136-143 | the contributing rows are data rows, ascending, and exactly the non-empty ones whose part-number cell is strictly equal to the selection |
| ExcelParser.ExtractionFollowsSelectedRows | src/utils/excelParser.js:136-169 | extraction gives one component per selected row, in row order, normalised from that row (parsed costs or 0, trimmed upper-cased country or "", formatted code, other cells passed through); the warnings are each row's warnings in that order |
| ExcelParser.ComponentsOfRowsSnoc | src/utils/excelParser.js:160-169 | pushing a row's component extends the row-by-row correspondence |
| ExcelParser.WarningsOfSnoc | src/utils/excelParser.js:152-157 | pushing a row's warnings extends the concatenated warnings |
| ExcelParser.WarningsBounded | src/utils/excelParser.js:152-157 | at most two warnings per component |
| ExcelParser.ExtractionWarningsBounded | src/utils/excelParser.js:152-157 | extraction raises at most twice as many warnings as components |
| ExcelParser.RowWarningsExact | src/utils/excelParser.js:152-157 | "Fila n: Costo es 0 o inválido" is raised iff the total cost is 0; "Fila n: País no especificado" iff the normalised country is empty |
| ExcelParser.ExtractComponents | src/utils/excelParser.js:132-173 | the loop returns exactly the components and warnings of the extraction specification, with at most two warnings per component |
| ExcelParser.ParseExcelForUSMCA | src/utils/excelParser.js:186-210 | a missing header row fails; a missing required column fails with "Columnas faltantes: " and the names joined by ", " and no catalogue; otherwise succeeds with the resolved indexes and the catalogue |
| ExcelParser.RequiredResolvedOnSuccess | src/utils/excelParser.js:191-194 | when nothing is reported missing, the four required keys hold real column positions |
| UsmcaCalculations.PutKeepsWellFormed | src/utils/usmcaCalculations.js:16-23 | assigning a key keeps each key listed once: a new key is appended, an existing one keeps its place; only that key's value changes |
| UsmcaCalculations.TotalMaterials | src/utils/usmcaCalculations.js:52-54 | `calculateTotalMaterials`: the sum of `costTotal` over all components, added from the first one on |
| UsmcaCalculations.NonOriginatingBounds | src/utils/usmcaCalculations.js:34-54 | with non-negative costs, 0 <= non-originating total <= total materials |
| UsmcaCalculations.CalculateNonOriginatingTotal | src/utils/usmcaCalculations.js:34-45 | the loop returns the sum of the costs of components from outside the bloc |
| UsmcaCalculations.CountriesListsEachOnce | src/utils/usmcaCalculations.js:12-21 | the keys created are each component country, once, and nothing else |
| UsmcaCalculations.BreakdownUnique | src/utils/usmcaCalculations.js:9-27 | only one object has the breakdown's keys, totals and flags |
| UsmcaCalculations.CountrySumAbsent | src/utils/usmcaCalculations.js:16-23 | a country with no component has no materials |
| UsmcaCalculations.CountrySumSnoc | src/utils/usmcaCalculations.js:23 | a new component adds its cost to its own country only |
| UsmcaCalculations.CountriesSnoc | src/utils/usmcaCalculations.js:16-21 | a new component adds its country as a key only if it is not there yet |
| UsmcaCalculations.BreakdownOfIsBreakdown | src/utils/usmcaCalculations.js:9-27 | the breakdown lists the countries in first-seen order, each with its materials and its bloc flag |
| UsmcaCalculations.LoopStepKeepsBreakdown | src/utils/usmcaCalculations.js:12-24 | one `forEach` step turns the breakdown of a prefix into the breakdown of the prefix extended by one component |
| UsmcaCalculations.CalculateCountryBreakdown | src/utils/usmcaCalculations.js:9-27 | the in-place loop returns exactly the breakdown: one entry per distinct country, with its materials and its bloc flag |
| UsmcaCalculations.CountrySumOverEmpty | src/utils/usmcaCalculations.js:9-27 | no components, no materials for any country |
| UsmcaCalculations.CountrySumOverSnoc | src/utils/usmcaCalculations.js:23 | over distinct keys, a new component adds its cost once if its country is a key |
| UsmcaCalculations.CountrySumsCoverTotal | src/utils/usmcaCalculations.js:9-27 | distinct keys that cover every country split the materials without loss |
| UsmcaCalculations.BreakdownTotalsAreCountrySums | src/utils/usmcaCalculations.js:23 | each breakdown total is its country's materials |
| UsmcaCalculations.BreakdownSumsToMaterials | src/utils/usmcaCalculations.js:9-27 | the breakdown has one entry per distinct country, each flagged with its bloc membership, and its totals add up to the total materials |
| UsmcaCalculations.ScaleEntries | src/utils/usmcaCalculations.js:87-94 | the copying loop gives every breakdown entry, in key order, its total, its flag and total/TMC*100 |
| UsmcaCalculations.ScaleStep | src/utils/usmcaCalculations.js:87-94 | one copying step adds the next key, which is new, with its scaled entry |
| UsmcaCalculations.ScaledComplete | src/utils/usmcaCalculations.js:87-94 | after the last key the copy is the scaled breakdown |
| UsmcaCalculations.CalculateCountryPercentages | src/utils/usmcaCalculations.js:83-109 | returns the scaled breakdown with labour folded into "MX" (added to its total, or a new in-bloc "MX" entry) and the MX percentage recomputed |
| UsmcaCalculations.SharesOfEntries | src/utils/usmcaCalculations.js:96-106 | "MX" is always present with its materials (0 if none) plus labour; every other entry keeps its total and flag; every percentage is total/TMC*100 |
| UsmcaCalculations.SharesOfKeys | src/utils/usmcaCalculations.js:87-106 | no breakdown country is dropped: the keys are the breakdown's in the same order, with "MX" appended only when it was missing; an existing MX entry keeps its flag and a created one is flagged in the bloc |
| UsmcaCalculations.MexicoIsInBloc | src/utils/usmcaCalculations.js:14 | "MX" is a bloc country, so the breakdown flags an MX entry as in the bloc |
| UsmcaCalculations.MexicoEntryInBloc | src/utils/usmcaCalculations.js:96-106 | for a breakdown built from components, the percentages always hold an "MX" entry, flagged in the bloc whether it was created or not |
| UsmcaCalculations.SumOverBump | src/utils/usmcaCalculations.js:98 | raising one key's value by d raises the sum by d |
| UsmcaCalculations.SumOverPercent | src/utils/usmcaCalculations.js:88 | percentages of the values sum to the percentage of the sum |
| UsmcaCalculations.SharesTotal | src/utils/usmcaCalculations.js:96-106 | after the fold the totals add up to the breakdown's totals plus labour |
| UsmcaCalculations.SharesSumTo100 | src/utils/usmcaCalculations.js:185-211 | with labour = TMC - materials, the totals add up to the TMC and the percentages to exactly 100 |
| UsmcaCalculations.CalculateRVC | src/utils/usmcaCalculations.js:62-65 | 0 when TMC <= 0; otherwise rvc * TMC = (TMC - non-originating) * 100, which lies in [0, 100] when 0 <= non-originating <= TMC |
| UsmcaCalculations.DetermineUSMCACompliance | src/utils/usmcaCalculations.js:72-74 | "YES" iff rvc >= 60, otherwise "NO" |
| UsmcaCalculations.ComplianceIffNonOriginatingAtMost40 | src/utils/usmcaCalculations.js:62-74 | with a positive TMC the verdict is "YES" iff non-originating materials are at most 40 % of the TMC |
| UsmcaCalculations.WorkedExample | src/utils/usmcaCalculations.js:34-74 | components of 40 from "CN" and 60 from "MX" under a TMC of 150: materials 100, a valid TMC, labour 50, 40 non-originating, RVC 220/3 (73.33...), "YES" |
| UsmcaCalculations.ThresholdIsInclusive | src/utils/usmcaCalculations.js:73 | exactly 60 % complies |
| UsmcaCalculations.CalculateTariffShift | src/utils/usmcaCalculations.js:117-126 | only "NA" or "YES" (never "NO"); "YES" iff both codes are non-empty and their first four characters after removing dots differ |
| UsmcaCalculations.TariffShiftComparesHeadings | src/utils/usmcaCalculations.js:117-126 | on two formatted codes the flag compares the first four code characters |
| UsmcaCalculations.AddTariffShiftToComponents | src/utils/usmcaCalculations.js:134-139 | same length and order; each component differs from its input only by the added flag |
| UsmcaCalculations.ValidateTotalManufacturedCost | src/utils/usmcaCalculations.js:147-163 | valid iff the TMC is a number > 0 and >= the materials; a missing or non-positive TMC is reported first ("debe ser mayor a 0"), then a TMC below the materials ("no puede ser menor") |
| UsmcaCalculations.PercentageWarning | src/utils/usmcaCalculations.js:215 | the warning "Los porcentajes suman X% en lugar de 100%", with X the percentage total printed with two decimals |
| UsmcaCalculations.PerformUSMCAAnalysis | src/utils/usmcaCalculations.js:172-231 | fails with only the validation error when invalid; otherwise returns the materials, labour = TMC - materials >= 0, the non-originating total, the RVC and verdict, the percentages (totals summing to TMC, percentages to 100), the tagged components, no warning, and 0 <= rvc <= 100 when costs are non-negative |

## Left out

- `readExcelFile` (src/utils/excelParser.js:27-50) is not modelled: it involves the FileReader, the Promise and the XLSX decoder. The model starts from the decoded table. An error thrown while reading, and hence its "Error al leer el archivo" message, is not modelled.
- `getCurrentDate` is not modelled because it reads the clock. `formatCurrency` and `formatPercentage` are not modelled because they only format output. The React interface, PDF generation and spreadsheet export are not part of this model.
- Costs and percentages are exact reals, not IEEE-754 doubles, so rounding in sums and divisions is not modelled. This is why the 0.1 tolerance warning of `performUSMCAAnalysis` can never be raised in the model.
- `parseFloat` reads decimal literals. Its "Infinity" literals are not modelled, and neither are numbers too large or too small for a double.
- `toFixed(2)` is modelled as round-half-up on exact reals. It does not produce the exponent form JavaScript uses from 1e21 upwards.
- `toUpperCase` is modelled for ASCII and Latin-1 letters only. Characters whose upper case is longer (such as 'ß') or lies outside Latin-1 are left unchanged. Strings are sequences of code points, not UTF-16 units.
- Plain-object key order is insertion order. JavaScript lists integer-like keys (a country written as a numeric code such as "484") first, in ascending order. The key order of the returned `byCountry` and `countryPercentages` objects therefore differs from the model's for such countries, and so does the order of any later stable sort on ties. Only the sums are unaffected, because exact arithmetic ignores the order of addition.
- A number cell carries its value and the text `String(value)` renders it as. The model trusts that text to be the canonical rendering and does not constrain it. A table holding two `Num` cells with the same value and different texts ("1" and "01") would make the part-number comparison and the catalogue's `Map.has` tell them apart, where JavaScript sees one number.
- Inherited property names used as countries (a country spelled "constructor" or "toString") are not modelled. Every country starts absent from the object.
- A missing header row makes `findIndex` throw a TypeError. The model returns a failure carrying V8's wording of that message.
- `isUSMCACountry` applies `String(…)` to its argument. The model takes a string, because every caller passes a component's country, which is already a string.
- `performUSMCAAnalysis` receives the main tariff code as a string. The case where the caller passes `undefined` is not modelled.
- UsmcaCalculations.CalculateCountryPercentages requires a non-zero TMC. Its only caller, `performUSMCAAnalysis`, calls it after checking that the TMC is positive. With a zero TMC, JavaScript would produce Infinity or NaN percentages, which the model leaves out.
- UsmcaCalculations.ScaleEntries is the first `forEach` of `calculateCountryPercentages`, factored out as a method of its own. The method `CalculateCountryPercentages` calls it and then performs the fold into "MX".
