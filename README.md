# CSV matrix toolkit, modelled in Dafny

This project models the core of a small JavaScript toolkit. The toolkit reads CSV
text into a matrix of strings (`string[][]`), transforms the matrix, and writes it
back as CSV or as an HTML table. The model covers:

- **Text and matrix.** `parseCSV` / `serializeCSV` (split and join on `'\n'` and
  `','`), the trimming parser and bordered table renderer of the stand-alone HTML
  converter, and `convertToCSV`, which quotes every value and doubles the quotes
  inside it (section 2, item 7 of RFC 4180).
- **Matrix transforms.** All take 1-based indices: column `swap`, `columndelete`,
  `insertcolumn`, `rowdelete`, `insertrow`, the padding transpose
  `rowstocolumns`/`columnstorows`, and the header-keeping `sortByColumn`.
- **The record adapter.** It converts keyed records to a header-plus-rows matrix and
  back (`dataToMatrix`, `matrixToData`, `matrixToTransposedData`). On top of it sit
  the entry points `swapColumns`, `deleteRow`, `deleteColumn` and `transpose`. The
  same file models the record mapping inside `parseCSVFile`.
- **Glue.** Left-to-right `pipe`, the option scanner `parseOptions`, and the pipeline
  builder `createTransformationPipeline` of the command-line tool. The pipeline is
  also run end to end on a value type.
- **Renderers.** `createRow` / `tohtmltable`. They emit cells verbatim, with no
  escaping.

The modules follow the source files.

| module | source | form |
|---|---|---|
| `Wrappers` | — | `Option` |
| `Strings` | — | the string built-ins: `split`, `join`, `trim`, `<` on strings, `String(n)` |
| `Matrices` | — | array `filter` by index, `splice`, `indexOf`, widest row |
| `Parsing` | `src/utils/parsing.js` | |
| `Columns` | `src/transformations/columns.js` | `swap` is a method on a copied row |
| `Rows` | `src/transformations/rows.js` | |
| `Transposition` | `src/transformations/transpose.js` | |
| `Sorting` | `src/transformations/sort.js` | the in-place sort works on an `array` |
| `Records` | — | the records the adapter works on |
| `CsvTransformations` | `src/transformations/csvTransformations.js` | its `forEach` / `for` loops are methods proved equal to the specification functions |
| `FileUtils` | `src/utils/fileUtils.js` | |
| `Functional` | `src/utils/functional.js` | |
| `Html` | `src/formatters/html.js` | |
| `HtmlConvert` | `src/formatters/htmlConvert.js` | |
| `Cli` | `src/cli.js` | `parseOptions` keeps its index-advancing loop; `createTransformationPipeline` keeps its pushes |

Modelling decisions:

- **Records.** A record is an optional `id` (None stands for `undefined`) plus an
  ordered list of string-valued fields. `obj[name] = v` is `Records.SetField`:
  - a new name is appended at the end;
  - an existing name is overwritten in place;
  - the name `"id"` sets the id to a string.
  The last case is what `matrixToData` and `parseCSVFile` do with a header called
  `"id"`.
- **Numbers.** A parsed number is `NaN` or an integer.
  - `Cli.ParseInt` follows `parseInt` with no radix: leading whitespace, a sign,
    the `0x` / `0X` prefix, then the longest digit run.
  - Truthiness of an option value is "present, not NaN, not 0".
  - A missing value (`args[++i]` past the end) is `undefined`: it parses to `NaN`,
    and stores `undefined` as the output path.
- **Pipeline values.** A stage value is `Text`, `Table` or `Fault`. `Fault` stands
  for the JavaScript behaviour that is not modelled:
  - an out-of-range or `NaN` swap;
  - the transpose of an empty matrix;
  - a stage given the wrong kind of value.

## Model

| member | source | states |
|---|---|---|
| Strings.Split | src/utils/parsing.js:13 | `split` on one character gives one piece more than there are separators; no piece contains the separator; every character of a piece occurs in the input |
| Strings.JoinSplit | src/utils/parsing.js:13-20 | joining the pieces of a split with the separator gives the text back, for every text |
| Strings.SplitJoin | src/utils/parsing.js:13-20 | splitting the join of one or more separator-free parts gives exactly those parts |
| Strings.SplitWithoutSeparator | src/utils/parsing.js:13 | a text without the separator splits into itself alone |
| Strings.SplitAfterPiece | src/utils/parsing.js:13 | a separator-free piece followed by the separator splits off as the first piece |
| Strings.SplitSingle | src/utils/parsing.js:13 | a one-character text other than the separator is one piece |
| Strings.SplitAppendChar | src/formatters/htmlConvert.js:16 | appending a non-separator character extends only the last piece |
| Strings.JoinAvoids | src/utils/parsing.js:20 | a character in neither the parts nor the separator is not in the join |
| Strings.Join | src/utils/parsing.js:20 | `join`: the parts with the separator between neighbours; no contract of its own, its properties are `Strings.JoinSplit`, `Strings.SplitJoin`, `Strings.JoinAvoids`, `Strings.JoinThree` and `Strings.JoinContainsPart` |
| Strings.JoinThree | src/utils/parsing.js:20 | three parts join as part, separator, part, separator, part |
| Strings.JoinContainsPart | src/formatters/html.js:43 | every part occurs inside the join |
| Strings.TrimStart | src/formatters/htmlConvert.js:14 | the result is a suffix; everything dropped is whitespace; the result does not start with whitespace |
| Strings.TrimEnd | src/formatters/htmlConvert.js:14 | the result is a prefix; everything dropped is whitespace; the result does not end with whitespace |
| Strings.Trim | src/formatters/htmlConvert.js:14 | the trimmed text neither starts nor ends with whitespace |
| Strings.TrimStartAfterWhitespace | src/formatters/htmlConvert.js:14 | leading whitespace does not change `trimStart` |
| Strings.TrimStartKeepsTail | src/formatters/htmlConvert.js:14 | once a text has a non-whitespace character, text appended after it survives `trimStart` |
| Strings.TrimEndBeforeWhitespace | src/formatters/htmlConvert.js:14 | trailing whitespace does not change `trimEnd` |
| Strings.TrimIgnoresPadding | src/formatters/htmlConvert.js:14 | whitespace padding on either side does not change `trim` |
| Strings.StrLessIrreflexive | src/transformations/sort.js:26-27 | no string is `<` itself |
| Strings.StrLessTransitive | src/transformations/sort.js:26-27 | string `<` is transitive |
| Strings.StrLessTotal | src/transformations/sort.js:26-27 | of two different strings, one is `<` the other |
| Strings.StrLessAsymmetric | src/transformations/sort.js:26-27 | string `<` never holds both ways |
| Strings.DigitValue | src/cli.js:109 | a decimal digit's value is below ten |
| Strings.DigitRoundTrip | src/transformations/csvTransformations.js:135 | the character written for a digit reads back as that digit |
| Strings.NatToString | src/transformations/csvTransformations.js:135 | `String(n)` is non-empty, all decimal digits, with no leading zero |
| Strings.DecimalOfNatToString | src/transformations/csvTransformations.js:135 | reading `String(n)` back as a decimal gives `n` |
| Strings.NatToStringInjective | src/transformations/csvTransformations.js:135 | different numbers give different property names |
| Matrices.RemoveAt | src/transformations/rows.js:14 | filtering out index `i` removes exactly element `i` when it exists, and keeps the sequence otherwise |
| Matrices.SplicePos | src/transformations/rows.js:26 | the insertion position of `splice` lies within the array, and equals the start when the start is in range |
| Matrices.Splice | src/transformations/rows.js:26 | `splice(start, 0, x)` grows the array by one, with `x` at the insertion position and the elements before and after it unchanged |
| Matrices.MaxWidth | src/transformations/transpose.js:13 | the widest row: no row is wider, and some row has that width |
| Matrices.IndexOf | src/transformations/csvTransformations.js:46 | `indexOf` is -1 exactly when the value is absent, and otherwise the first position holding it |
| Matrices.IndexOfDistinct | src/transformations/csvTransformations.js:46 | in a header without repeated names, `indexOf` of the name in column k is k |
| Matrices.IndexOfAppend | src/transformations/csvTransformations.js:46 | appending a different name does not move the first occurrence |
| Matrices.Remove | src/transformations/csvTransformations.js:80 | `filter(key => key !== x)` drops `x` and keeps every other element |
| Parsing.ParseCsv | src/utils/parsing.js:13 | one row per newline plus one; every row has at least one cell; no cell holds `','` or `'\n'` |
| Parsing.SerializeCsv | src/utils/parsing.js:20 | `serializeCSV`: rows comma-joined, then newline-joined; no contract of its own, its properties are `Parsing.ParseThenSerialize`, `Parsing.SerializeThenParse` and `Parsing.LinesOfSerialized` |
| Parsing.ParseThenSerialize | src/utils/parsing.js:13-20 | `serializeCSV(parseCSV(s)) == s` for every text |
| Parsing.LinesOfSerialized | src/utils/parsing.js:20 | when no cell holds a newline, the lines of the CSV text are the rows' comma-joined texts, in order |
| Parsing.SerializeThenParse | src/utils/parsing.js:13-20 | `parseCSV(serializeCSV(m)) == m` for a non-empty matrix of non-empty rows whose cells hold no delimiter |
| Parsing.ParseExample | src/test/index.test.js:9-17 | `"A,B,C\nD,E,F\nG,H,I"` parses to the 3-by-3 matrix |
| Functional.Pipe | src/utils/functional.js:6-7 | `pipe(...fns)(value)`: the functions applied left to right; no contract of its own, its properties are `Functional.PipeEmpty`, `PipeSingle`, `PipeAppend`, `PipeLast` and `PipeThree` |
| Functional.PipeEmpty | src/utils/functional.js:6-7 | `pipe()` is the identity |
| Functional.PipeSingle | src/utils/functional.js:6-7 | `pipe(f)` is `f` |
| Functional.PipeAppend | src/utils/functional.js:6-7 | `pipe(fs ++ gs)(x) == pipe(gs)(pipe(fs)(x))` |
| Functional.PipeLast | src/utils/functional.js:6-7 | the last function runs last, on what the others produced |
| Functional.PipeThree | src/utils/functional.js:6-7 | `pipe(f, g, h)(x) == h(g(f(x)))` |
| Columns.SwapCells | src/transformations/columns.js:18-19 | the copy has the row's length, the two cells exchanged, and every other cell unchanged |
| Columns.SwapInCopy | src/transformations/columns.js:18-20 | the copy-and-exchange of the source yields the swapped row |
| Columns.Swap | src/transformations/columns.js:14-22 | for 1 ≤ n, m ≤ row length: same row count and lengths; cells n-1 and m-1 exchanged in every row; all other cells unchanged |
| Columns.SwapSymmetric | src/transformations/columns.js:19 | `swap(n, m) == swap(m, n)` |
| Columns.SwapInvolution | src/transformations/columns.js:19 | swapping twice gives the matrix back |
| Columns.SwapSameColumn | src/transformations/columns.js:19 | `swap(n, n)` is the identity |
| Columns.ColumnDelete | src/transformations/columns.js:30-32 | removes exactly cell n-1 from each row of length ≥ n and leaves shorter rows unchanged |
| Columns.InsertColumn | src/transformations/columns.js:41-47 | each row grows by one, with `column[i]` (or `''`) at the splice position and the cells before and after it kept |
| Columns.DeleteInsertedColumn | src/transformations/columns.js:30-47 | `columndelete(n + 1)(insertcolumn(n, col)(M)) == M` for 0 ≤ n ≤ every row length |
| Columns.SwapExample | src/test/index.test.js:33-41 | `swap(1, 3)` on the 2-by-3 matrix |
| Columns.ColumnDeleteExample | src/test/index.test.js:43-51 | `columndelete(2)` on the 2-by-3 matrix |
| Columns.InsertColumnExample | src/test/index.test.js:53-63 | `insertcolumn(1, [X, Y])` on the 2-by-3 matrix |
| Rows.RowDelete | src/transformations/rows.js:13-15 | removes exactly row n-1 when 1 ≤ n ≤ the row count, with the others in order; otherwise the matrix is unchanged |
| Rows.InsertRow | src/transformations/rows.js:24-28 | one more row; for 0 ≤ n ≤ the row count, the row lies at n with the rows before and after it kept |
| Rows.DeleteInsertedRow | src/transformations/rows.js:13-28 | `rowdelete(n + 1)(insertrow(n, r)(M)) == M` for 0 ≤ n ≤ the row count |
| Rows.RowExamples | src/test/index.test.js:73-94 | `rowdelete(2)` and `insertrow(1, [X, Y, Z])` on the 3-by-3 matrix |
| Transposition.RowsToColumns | src/transformations/transpose.js:12-17 | one output row per column of the widest row; every output row has one cell per input row; cell i of output row k is input cell k of row i, or `''` |
| Transposition.ColumnsToRows | src/transformations/transpose.js:24 | `columnstorows` is the same function as `rowstocolumns` |
| Transposition.PadRight | src/transformations/transpose.js:15 | the padded row keeps the row as its prefix and has `''` in every added cell |
| Transposition.MaxWidthOfRectangular | src/transformations/transpose.js:13 | in a rectangular matrix the widest row has the common width |
| Transposition.TransposeTwicePads | src/transformations/transpose.js:12-17 | on a non-empty matrix of non-zero width, transposing twice right-pads every row with `''` to the widest row |
| Transposition.TransposeTwiceRectangular | src/transformations/transpose.js:12-17 | on a non-empty rectangular matrix of non-zero width, transposing twice is the identity |
| Transposition.SecondRoundTripInvertible | src/transformations/transpose.js:12-17 | after one round trip, a further round trip changes nothing |
| Transposition.TransposeThreeByTwo | src/test/index.test.js:104-117 | any 3-by-2 matrix transposes to the corresponding 2-by-3 one, and back |
| Transposition.TransposeExample | src/test/index.test.js:104-117 | the test suite's `[[A,B],[C,D],[E,F]]` transposes to `[[A,C,E],[B,D,F]]`, and `columnstorows` brings it back |
| Sorting.Insert | src/transformations/sort.js:21-29 | placing one row into a sorted run gives one more row |
| Sorting.InsertionSort | src/transformations/sort.js:21-29 | the sorted rows are as many as the input rows |
| Sorting.InsertMultiset | src/transformations/sort.js:21-29 | inserting adds exactly the one row |
| Sorting.InsertionSortMultiset | src/transformations/sort.js:21-29 | the sort is a permutation of its input |
| Sorting.NotLessTransitive | src/transformations/sort.js:26-27 | "not less than" on strings is transitive |
| Sorting.NotBeforeTransitive | src/transformations/sort.js:26-27 | under either direction, "does not sort before" is transitive |
| Sorting.BeforeAsymmetric | src/transformations/sort.js:26-27 | a row that sorts before another has a different key, and the other does not sort before it |
| Sorting.AppendKeepsSorted | src/transformations/sort.js:21-29 | a row that sorts before none of a sorted run can follow it |
| Sorting.InsertKeepsSorted | src/transformations/sort.js:21-29 | inserting into a sorted run keeps it sorted |
| Sorting.InsertionSortSorted | src/transformations/sort.js:21-29 | the sort's output is sorted on the key column in the requested direction |
| Sorting.SortedIsMonotone | src/transformations/sort.js:26-27 | in sorted rows, consecutive keys are non-decreasing for `'asc'` and non-increasing otherwise |
| Sorting.KeyFilterAppend | src/transformations/sort.js:28 | the rows of one key in a concatenation are those of each part, in order |
| Sorting.InsertStable | src/transformations/sort.js:28 | inserting puts the new row after every row with an equal key |
| Sorting.InsertionSortStable | src/transformations/sort.js:28 | rows with equal keys keep their relative order |
| Sorting.InsertPosition | src/transformations/sort.js:21-29 | the row lands after the rows it does not sort before and before the rest |
| Sorting.InsertionSortPrefix | src/transformations/sort.js:21-29 | sorting one more input row inserts it into the sorted prefix |
| Sorting.InsertAt | src/transformations/sort.js:21-29 | the in-place step inserts `a[i]` into the sorted prefix `a[..i]` and leaves the rest of the array alone |
| Sorting.SortRows | src/transformations/sort.js:21 | sorting the array in place leaves exactly the insertion sort of its old contents |
| Sorting.SortedByColumn | src/transformations/sort.js:10-33 | `sortByColumn(col, direction)(matrix)`: the header, then the data rows stably sorted on column col-1; no contract of its own, its properties are `Sorting.SortedByColumnProperties`, and `Sorting.SortByColumn` computes it |
| Sorting.SortedByColumnProperties | src/transformations/sort.js:10-33 | at most one row: unchanged. Otherwise: same length, a permutation, the header kept first, the data rows sorted on column col-1 in the direction given, and stable |
| Sorting.SortByColumn | src/transformations/sort.js:10-33 | the header split, in-place sort and recombination compute the sorted matrix |
| Records.Names | src/transformations/csvTransformations.js:80 | the property names, one per field, in order |
| Records.Lookup | src/utils/fileUtils.js:96 | `obj[name]` is absent exactly when no field has that name |
| Records.LookupAt | src/utils/fileUtils.js:96 | with distinct names, looking up a field's name gives its value |
| Records.SetField | src/transformations/csvTransformations.js:114 | `obj[name] = v`: "id" sets the id; any other name reads back as `v`, keeps its place when present, and is appended otherwise; well-formed records stay well-formed |
| Records.SetFieldKeepsOthers | src/transformations/csvTransformations.js:114 | assigning one property leaves every other name's value unchanged |
| Records.SetFieldAppends | src/transformations/csvTransformations.js:114 | assigning a new name appends exactly that field |
| Records.Keys | src/transformations/csvTransformations.js:80 | `Object.keys(obj).filter(key => key !== 'id')`: never "id", and all field names of a well-formed record |
| Records.LookupSwapped | src/transformations/csvTransformations.js:17 | exchanging two fields keeps the names distinct and every name's value |
| Records.LookupRemoveAt | src/transformations/csvTransformations.js:52 | removing a field removes its name and keeps every other name's value |
| CsvTransformations.Headers | src/transformations/csvTransformations.js:80 | `Object.keys(data[0]).filter(key => key !== 'id')`; no contract of its own, `Records.Keys` states it never holds "id" and holds every field name of a well-formed record |
| CsvTransformations.Cells | src/transformations/csvTransformations.js:88 | one cell per header: the record's value for it, or `''` |
| CsvTransformations.DataRows | src/transformations/csvTransformations.js:85-90 | one row of cells per record, in order |
| CsvTransformations.IdsOf | src/transformations/csvTransformations.js:86 | the id map holds every record's id, in order |
| CsvTransformations.DataToMatrix | src/transformations/csvTransformations.js:77-93 | no records: `[[]]`. Otherwise: header row = keys of the first record minus "id"; one row per record, each of header length, holding the record's values or `''`; `idMap[i] == data[i].id` |
| CsvTransformations.DataToMatrixRow | src/transformations/csvTransformations.js:88-89 | matrix row j + 1 is record j's cells |
| CsvTransformations.BuildMatrix | src/transformations/csvTransformations.js:77-93 | the `forEach` with its two pushes computes `dataToMatrix` |
| CsvTransformations.ZipFields | src/transformations/csvTransformations.js:113-115 | header k paired with cell k, or `''` when the row is short |
| CsvTransformations.ZipFieldsSnoc | src/transformations/csvTransformations.js:113-115 | one more header adds one more pair at the end |
| CsvTransformations.FillNext | src/transformations/csvTransformations.js:113-115 | step n + 1 of the `forEach` assigns header n its cell |
| CsvTransformations.FillDistinct | src/transformations/csvTransformations.js:113-115 | with distinct headers and none named "id", the first n assignments give the first n header/cell pairs |
| CsvTransformations.BuildRecordDistinct | src/transformations/csvTransformations.js:109-115 | with such headers a record is its id and the zip of header and row |
| CsvTransformations.IdFor | src/transformations/csvTransformations.js:111 | `idMap[i-1]` when it is defined, otherwise `i-1`, for data row i; no contract of its own, `CsvTransformations.DataIdFor` states that after `dataToMatrix` each record gets back its own id or its position |
| CsvTransformations.BuildRecord | src/transformations/csvTransformations.js:109-115 | the object built from one data row: the id, then `obj[header] = row[index] \|\| ''` per header; no contract of its own, `CsvTransformations.BuildRecordDistinct`, `FillDistinct` and `RecordFromRow` state its fields |
| CsvTransformations.MatrixToData | src/transformations/csvTransformations.js:101-121 | at most one row: `[]`; otherwise one record per data row |
| CsvTransformations.MatrixToDataAt | src/transformations/csvTransformations.js:107-118 | record k is built from header and row k + 1, with `idMap[k]` when defined and `k` otherwise |
| CsvTransformations.MatrixToDataZips | src/transformations/csvTransformations.js:107-118 | with distinct headers other than "id", record k is that id plus header zipped with row k + 1 |
| CsvTransformations.FillRecord | src/transformations/csvTransformations.js:109-115 | the loop body's assignments build that record |
| CsvTransformations.DataRecordFacts | src/transformations/csvTransformations.js:80-89 | for uniform records, record i is well-formed, its names are the headers, and its matrix row is its cells |
| CsvTransformations.DataIdFor | src/transformations/csvTransformations.js:111 | after `dataToMatrix`, record i gets back its own id, or i when it had none |
| CsvTransformations.RecordFromRow | src/transformations/csvTransformations.js:107-118 | a row that is a record's cells under its own header rebuilds that record's fields |
| CsvTransformations.BuildRecords | src/transformations/csvTransformations.js:101-121 | the `for` loop with its pushes computes `matrixToData` |
| CsvTransformations.NumberedFields | src/transformations/csvTransformations.js:134-136 | one field per cell |
| CsvTransformations.NumberedFieldsWellFormed | src/transformations/csvTransformations.js:134-136 | the fields keyed "0", "1", … are distinct and not "id", and key c holds cell c |
| CsvTransformations.MatrixToTransposedData | src/transformations/csvTransformations.js:128-140 | one record per row, record k with id k, and key `String(c)` holding cell c |
| CsvTransformations.NumberedFieldsAll | src/transformations/csvTransformations.js:134-136 | key `String(c)` of row k holds cell c of row k |
| CsvTransformations.NumberedFieldAppends | src/transformations/csvTransformations.js:134-136 | each `obj[colIndex] = value` appends a new key |
| CsvTransformations.BuildTransposedRecords | src/transformations/csvTransformations.js:128-140 | the `map` / `forEach` loops compute `matrixToTransposedData` |
| CsvTransformations.WithIds | src/transformations/csvTransformations.js:111 | every record gets its own id, or its position when it had none; records that all have ids are unchanged |
| CsvTransformations.ZipCells | src/transformations/csvTransformations.js:88-115 | zipping a record's own names with its cells gives back its fields |
| CsvTransformations.RoundTrip | src/transformations/csvTransformations.js:77-121 | on records sharing one key list, `matrixToData(dataToMatrix(d))` keeps every record's fields and id, filling missing ids with the position |
| CsvTransformations.RoundTripKeepsRecords | src/transformations/csvTransformations.js:77-121 | on records sharing one key list and all having ids, the round trip is the identity |
| CsvTransformations.SwapColumns | src/transformations/csvTransformations.js:12-20 | one record per input record |
| CsvTransformations.SwapColumnsRecord | src/transformations/csvTransformations.js:12-20 | record i is record i with fields col1 and col2 exchanged, keeping its id |
| CsvTransformations.SwapRowRecord | src/transformations/csvTransformations.js:17-19 | swapping header and cells together rebuilds the record with the two fields exchanged |
| CsvTransformations.SwappedCells | src/transformations/csvTransformations.js:17 | the swapped row is the cell row of the record with the fields exchanged, under the swapped header |
| CsvTransformations.SwappedNames | src/transformations/csvTransformations.js:17 | exchanging two fields exchanges the two names |
| CsvTransformations.SwapFieldsKeepsLookups | src/transformations/csvTransformations.js:17 | exchanging two fields changes the order of names and no name's value |
| CsvTransformations.SwapColumnsKeepsValues | src/transformations/csvTransformations.js:12-20 | `swapColumns` keeps every id and every name's value, and only reorders the names |
| CsvTransformations.DeleteRow | src/transformations/csvTransformations.js:27-35 | no records: `[]` |
| CsvTransformations.DeleteRowOutOfRange | src/transformations/csvTransformations.js:32 | an index naming no matrix row deletes nothing, apart from filling in missing ids |
| CsvTransformations.DeleteRowRemovesRecord | src/transformations/csvTransformations.js:27-35 | for 1 ≤ k ≤ n, record k-1 disappears, and the i-th survivor carries the fields of the i-th remaining record but the id of input record i |
| CsvTransformations.DeleteRowSurvivor | src/transformations/csvTransformations.js:32-34 | the same, for one surviving record |
| CsvTransformations.DeleteRowMatrix | src/transformations/csvTransformations.js:32 | `rowdelete(k + 1)` removes matrix row k |
| CsvTransformations.RowRemovedRecord | src/transformations/csvTransformations.js:34 | after a row is removed, record i is rebuilt from the row that moved into its place |
| CsvTransformations.DeleteRowZeroDropsHeader | src/transformations/csvTransformations.js:32 | `deleteRow(0)` deletes the header row, so the first record's values become the property names |
| CsvTransformations.DeleteRecord | src/transformations/csvTransformations.js:22-26 | the deletion `deleteRow` is documented to perform (0-based record and its id); properties in the next row |
| CsvTransformations.DeleteRecordRemovesOnlyIt | src/transformations/csvTransformations.js:22-26 | on uniform records with ids, the documented deletion removes exactly record k and changes no other |
| CsvTransformations.RemoveAtUniform | src/transformations/csvTransformations.js:80 | removing one of several records keeps them uniform, with ids, under the same header |
| CsvTransformations.DataRowsRemoveAt | src/transformations/csvTransformations.js:85-90 | removing a record removes its row of cells |
| CsvTransformations.IdsOfRemoveAt | src/transformations/csvTransformations.js:86 | removing a record removes its id from the id map |
| CsvTransformations.DataToMatrixRemoveAt | src/transformations/csvTransformations.js:77-93 | the matrix of the remaining records is the old matrix without that record's row, and likewise the id map |
| CsvTransformations.DeleteColumn | src/transformations/csvTransformations.js:42-55 | no records: `[]`; a field that is not a header returns the input itself |
| CsvTransformations.RemovedCells | src/transformations/csvTransformations.js:52 | removing cell p from a record's row gives the row of the record without field p |
| CsvTransformations.DeleteColumnRecord | src/transformations/csvTransformations.js:42-55 | for a header field, record i loses exactly that field and keeps its id |
| CsvTransformations.ColumnDeletedRecord | src/transformations/csvTransformations.js:52-54 | `columndelete(p + 1)` on the matrix rebuilds the record without field p |
| CsvTransformations.DeleteColumnRemovesField | src/transformations/csvTransformations.js:42-55 | for a header field: every record keeps its id, loses that field and keeps every other field's value |
| CsvTransformations.DeleteColumnFields | src/transformations/csvTransformations.js:42-55 | the same, for one record |
| CsvTransformations.Transpose | src/transformations/csvTransformations.js:62-70 | no records: `[]` |
| CsvTransformations.TransposeShape | src/transformations/csvTransformations.js:62-70 | one record per header k, with id k, key "0" holding the header name and key j + 1 holding record j's value |
| FileUtils.DoubleQuotes | src/utils/fileUtils.js:97 | `replace(/"/g, '""')` adds one character per quote and no new characters |
| FileUtils.UndoubleDoubled | src/utils/fileUtils.js:97 | un-doubling the doubled text gives back the value |
| FileUtils.UndoubleRejectsLoneQuote | src/utils/fileUtils.js:97 | a lone quote is not doubled text |
| FileUtils.QuoteCell | src/utils/fileUtils.js:97 | a data cell is a quote, the doubled value, and a quote |
| FileUtils.UnquoteQuoted | src/utils/fileUtils.js:97 | reading a quoted cell back gives the value |
| FileUtils.QuotedRow | src/utils/fileUtils.js:95-98 | one quoted cell per header, holding `String(row[header])` |
| FileUtils.QuotedRows | src/utils/fileUtils.js:94-100 | one quoted row per record, in order |
| FileUtils.CsvMatrix | src/utils/fileUtils.js:91-100 | the unquoted header row first, then each record's quoted row |
| FileUtils.ConvertToCsv | src/utils/fileUtils.js:88-103 | `convertToCSV`: `''` for no records, else the serialized quoted matrix; no contract of its own, its properties are `FileUtils.ConvertToCsvEmpty`, `FileUtils.ConvertToCsvLines` and `FileUtils.ConvertToCsvExample`, and `FileUtils.ConvertToCsvText` computes it |
| FileUtils.ConvertToCsvText | src/utils/fileUtils.js:88-103 | the `forEach` with its pushes computes `convertToCSV` |
| FileUtils.ConvertToCsvEmpty | src/utils/fileUtils.js:89 | the result is `''` exactly when there are no records |
| FileUtils.CsvMatrixWithoutNewlines | src/utils/fileUtils.js:94-102 | with no newline in headers or values, no cell of the matrix has one |
| FileUtils.ConvertToCsvLines | src/utils/fileUtils.js:88-103 | the CSV's first line is the comma-joined header and line i + 1 is record i's quoted cells |
| FileUtils.QuotedCellAvoidsNewline | src/utils/fileUtils.js:97 | quoting adds no newline |
| FileUtils.RecordsFromMatrix | src/utils/fileUtils.js:18-32 | the mapping inside `parseCSVFile` computes `matrixToData` with no id map |
| FileUtils.RecordsFromMatrixZips | src/utils/fileUtils.js:24-31 | with distinct headers other than "id", record i has id i and the header/cell pairs |
| FileUtils.RecordsFromMatrixIdColumn | src/utils/fileUtils.js:25-29 | a header named "id" overwrites the positional id with the cell's text |
| FileUtils.ConvertToCsvExample | src/utils/fileUtils.js:88-103 | a value `a"b` comes out as `"a""b"` under its header |
| Html.CellLines | src/formatters/html.js:34 | one indented `<td>` line per cell, in order |
| Html.RowBlocks | src/formatters/html.js:43 | one row block per matrix row, in order |
| Html.CreateRow | src/formatters/html.js:32-35 | `createRow`: the row tags around the cell lines; no contract of its own, its properties are `Html.RowContainsCell`, `Html.EmptyRow` and `Html.OneCellRow` |
| Html.ToHtmlTable | src/formatters/html.js:42-45 | `tohtmltable`: the table tags around the row blocks; no contract of its own, its properties are `Html.TableContainsCell`, `Html.EmptyTable` and `Html.OneRowTable` |
| Html.EmptyTable | src/formatters/html.js:43-44 | the empty matrix renders `"<table>\n\n</table>"` |
| Html.EmptyRow | src/formatters/html.js:32-35 | the empty row renders its two tag lines around an empty line |
| Html.RowContainsCell | src/formatters/html.js:32-35 | a rendered row contains `<td>X</td>` for each of its cells X, verbatim |
| Html.TableContainsCell | src/test/index.test.js:126-134 | the table contains `<td>X</td>` for every cell X |
| Html.OneRowTable | src/formatters/html.js:42-45 | a one-row table is the table tags on their own lines around that row |
| Html.OneCellRow | src/formatters/html.js:32-35 | a one-cell row is `"    <tr>\n      <td>X</td>\n    </tr>"` |
| HtmlConvert.TrimAll | src/formatters/htmlConvert.js:16 | every piece trimmed, in order |
| HtmlConvert.TrimmedCells | src/formatters/htmlConvert.js:16 | one cell per comma plus one |
| HtmlConvert.ParseTrimmed | src/formatters/htmlConvert.js:12-16 | one row per line of the trimmed text; row i is line i's trimmed cells |
| HtmlConvert.TrimWithin | src/formatters/htmlConvert.js:14 | trimming adds no character |
| HtmlConvert.SplitKeepsAbsent | src/formatters/htmlConvert.js:15-16 | a character absent from the text is absent from each piece |
| HtmlConvert.ParsedCellsClean | src/formatters/htmlConvert.js:12-16 | no parsed cell starts or ends with whitespace or holds `','` or `'\n'` |
| HtmlConvert.ParseIgnoresPadding | src/formatters/htmlConvert.js:14 | whitespace, including blank lines, around the content changes nothing |
| HtmlConvert.TrimDropsCarriageReturn | src/formatters/htmlConvert.js:16 | a trailing `'\r'` does not survive `trim` |
| HtmlConvert.TrimAllReplaceLast | src/formatters/htmlConvert.js:16 | a last piece with the same trim gives the same cells |
| HtmlConvert.CarriageReturnDropped | src/formatters/htmlConvert.js:16 | a line ending in `'\r'` gives the same cells as the bare line |
| HtmlConvert.CellElements | src/formatters/htmlConvert.js:26 | `row.map(cell => <td>cell</td>)`: one element per cell, in order |
| HtmlConvert.CellsHtml | src/formatters/htmlConvert.js:26 | defined as the `join('')` of the cell elements; no contract of its own, `HtmlConvert.BorderedTableContainsCell` and `HtmlConvert.OneCellRowHtml` state what it contains |
| HtmlConvert.RowHtml | src/formatters/htmlConvert.js:27 | one `<tr>` line holding the cells; no contract of its own, `HtmlConvert.OneCellRowHtml` gives its exact text for one cell |
| HtmlConvert.OneCellRowHtml | src/formatters/htmlConvert.js:26-27 | a one-cell row is `"  <tr><td>X</td></tr>"` |
| HtmlConvert.RowLines | src/formatters/htmlConvert.js:24-28 | one `"  <tr>…</tr>"` line per row, in order |
| HtmlConvert.ToBorderedTable | src/formatters/htmlConvert.js:23-31 | `toHTMLTable`: the bordered table tags around the newline-joined row lines; no contract of its own, its properties are `HtmlConvert.BorderedTableContainsCell`, `EmptyBorderedTable` and `OneRowBorderedTable` |
| HtmlConvert.BorderedTableContainsCell | src/formatters/htmlConvert.js:23-31 | the table contains `<td>X</td>` for every cell X |
| HtmlConvert.EmptyBorderedTable | src/formatters/htmlConvert.js:30 | the empty matrix renders `'<table border="1">\n\n</table>'` |
| HtmlConvert.OneRowBorderedTable | src/formatters/htmlConvert.js:23-31 | a one-row table is the bordered table tags on their own lines around that row's line |
| Cli.CharDigit | src/cli.js:109 | a character's digit value is below 36, and a decimal digit has its own value |
| Cli.DigitRun | src/cli.js:109 | the longest prefix of digits of the radix |
| Cli.LeadingValue | src/cli.js:109 | NaN exactly when no digit leads; otherwise a non-negative integer |
| Cli.UnsignedValue | src/cli.js:109 | an unsigned reading is never negative |
| Cli.RadixValueDecimal | src/cli.js:109 | decimal digits read in radix 10 give their decimal value |
| Cli.DecimalRun | src/cli.js:109 | the digit run stops at the first character that is not a digit |
| Cli.DecimalLeadingValue | src/cli.js:109 | a decimal numeral followed by a non-digit reads as its value |
| Cli.DigitFirst | src/cli.js:109 | a text starting with a digit has no whitespace or sign to skip |
| Cli.ParseInt | src/cli.js:106-112 | `parseInt` with no radix: skip leading whitespace, then a sign, prefix and digit run; no contract of its own, its properties are `Cli.ParseIntOfNatText`, `ParseIntNegative`, `ParseIntSkipsWhitespace`, `ParseIntNoDigits` and `ParseIntUndefined` |
| Cli.ParseIntOfNatText | src/cli.js:109 | `parseInt(String(n) + t) == n` when `t` does not continue the numeral |
| Cli.ParseIntNegative | src/cli.js:109 | `parseInt("-" + String(n)) == -n` |
| Cli.ParseIntSkipsWhitespace | src/cli.js:109 | leading whitespace does not change `parseInt` |
| Cli.ParseIntNoDigits | src/cli.js:109 | a text starting with no sign, space or digit is NaN |
| Cli.ParseIntUndefined | src/cli.js:109 | `parseInt(undefined)` is NaN |
| Cli.ArgText | src/cli.js:106 | an argument inside the array is its own text |
| Cli.ArgAt | src/cli.js:121 | `args[k]` is defined exactly when k is inside the array |
| Cli.Step | src/cli.js:104-122 | `--swap` consumes two values, `--delete-row`, `--delete-column` and `--output` one each, `--transpose` and `--to-html` none |
| Cli.Scan | src/cli.js:98-130 | the option scan from index 3 with `parseInt`; no contract of its own, its properties are `Cli.ParseGroups`, `Cli.UnknownOptionExits`, `Cli.ExitOnlyOnUnknown` and `Cli.FirstThreeIgnored`, and `Cli.ParseOptions` computes it |
| Cli.ScanStep | src/cli.js:101-127 | a known option moves the scan on past its values |
| Cli.ReadOption | src/cli.js:104-122 | each `case` with its `args[++i]` reads exactly the values above and stops at the last one |
| Cli.ParseOptions | src/cli.js:98-130 | the loop computes the scan of the command line |
| Cli.FirstThreeIgnored | src/cli.js:101 | `args[0..2]` never influence the options |
| Cli.ScanFromTail | src/cli.js:101 | the scan from index 3 on reads only the arguments from index 3 on |
| Cli.Tokens | src/cli.js:104-122 | an option group's length matches the values its option consumes, and its first token is the option |
| Cli.ScanGroup | src/cli.js:104-122 | scanning one option group applies its effect and moves past it |
| Cli.SliceSplit | src/cli.js:101 | a slice holding two concatenated groups holds each at its place |
| Cli.ScanGroups | src/cli.js:101-127 | scanning a run of groups applies their effects in order |
| Cli.ParseGroups | src/cli.js:98-130 | a command line of option groups parses to the groups' effects applied in order |
| Cli.UnknownOptionExits | src/cli.js:123-125 | the first unknown token ends the scan with exit status 1 and its message |
| Cli.ExitOnlyOnUnknown | src/cli.js:123-125 | the scan exits only on an unknown token, and with its message |
| Cli.LaterGroupWins | src/cli.js:106-121 | a later option of the same kind overwrites the earlier one |
| Cli.DistinctGroupsCommute | src/cli.js:104-122 | options of different kinds set independent fields |
| Cli.RepeatedOptionOverwrites | src/cli.js:108-110 | of two `--delete-row` values, the second is kept |
| Cli.MissingValueWith | src/cli.js:108-122 | a trailing `--delete-row` reads `undefined`; a trailing `--output` stores `undefined` |
| Cli.MissingValue | src/cli.js:108-122 | a trailing `--delete-row` gives NaN; a trailing `--output` stores `undefined` |
| Cli.Pipeline | src/cli.js:28-55 | the stage list the guarded pushes build; no contract of its own, its properties are `Cli.PipelineShape`, `PipelineOrdered`, `PipelineMembers` and `OptionOrderIrrelevant`, and `Cli.CreateTransformationPipeline` computes it |
| Cli.PushIf | src/cli.js:31-45 | a guarded `push` adds the stage exactly when its guard holds |
| Cli.PushOrdered | src/cli.js:31-45 | pushing a later-ranked stage keeps the stages in order |
| Cli.PipelineShape | src/cli.js:28-55 | `parseCSV` first; the output stage last, `tohtmltable` exactly when `toHtml` and `serializeCSV` otherwise; length 2 plus the enabled stages |
| Cli.PipelineOrdered | src/cli.js:31-45 | stages appear in the fixed order swap, row delete, column delete, transpose |
| Cli.PipelineMembers | src/cli.js:31-45 | a swap stage exactly when `swap` is set; a delete stage exactly when its value is truthy, with that value; transpose exactly when set |
| Cli.CreateTransformationPipeline | src/cli.js:28-55 | the pushes build exactly that pipeline |
| Cli.OptionOrderIrrelevant | src/cli.js:31-45 | giving two different options in either order yields the same pipeline |
| Cli.TwoGroups | src/cli.js:101-127 | two option groups parse to their effects in order |
| Cli.DeleteRowOptions | src/cli.js:108-110 | `--delete-row n` stores the integer n |
| Cli.ZeroDeleteRowAddsNoStage | src/cli.js:35-37 | `--delete-row 0` adds no stage |
| Cli.Apply | src/cli.js:29-52 | one stage applied to a value: the transformation of src/cli.js:29-52, or `Fault` where the source's behaviour is not modelled; no contract of its own, `Cli.RunSwap` and `Cli.SwapEndToEnd` state it for a swap |
| Cli.Run | src/cli.js:69-72 | `pipe(...transformations)(csvContent)`; no contract of its own, `Cli.RunExecutes` states that it applies the stages in order |
| Cli.StageFunctions | src/cli.js:69-70 | one function per stage, applying that stage |
| Cli.PipeExecutes | src/utils/functional.js:6-7 | `pipe` over the stage functions applies the stages first to last |
| Cli.RunExecutes | src/cli.js:69-72 | running a pipeline on a text applies its stages to that text, in order |
| Cli.SwapOptions | src/cli.js:105-107 | `--swap n m` stores both integers |
| Cli.RunSwap | src/test/index.test.js:139-152 | `pipe(parseCSV, swap(n, m), serializeCSV)` on a matrix's text gives the text of the swapped matrix |
| Cli.SwapPipeline | src/cli.js:31-52 | options holding only a swap give parse, swap, serialize |
| Cli.SwapEndToEnd | src/cli.js:28-55 | `--swap n m` on the command line turns the text of a matrix into the text of the swapped matrix |
| CsvExamples.SampleUniform | src/transformations/csvTransformations.js:80 | the sample records share the one header "a" and all have ids |
| CsvExamples.DeleteRowOneExample | src/transformations/csvTransformations.js:32 | `deleteRow(1)` on records x, y, z (ids 10, 20, 30) deletes x and gives y the id 10 |
| CsvExamples.DeleteRowZeroExample | src/transformations/csvTransformations.js:32 | `deleteRow(0)` on the same records makes "x" the property name |
| CsvExamples.DeleteRecordExample | src/transformations/csvTransformations.js:22-26 | the documented deletion of record 1 removes y with its id 20 |

Proof helpers, with no row because they state no behaviour of the source of their own:
`Strings.ExtendedLast`, `Strings.ExtendedFirst`, `Strings.InfixOfConcat`, `Strings.InfixTransitive`,
`Strings.InfixSelf`, `Matrices.RemoveAtIndex`, `Matrices.DistinctLast`, `Matrices.IndexOfUnique`,
`Transposition.PadRightAt` and `Sorting.PlacedIs`.

## Left out

- **I/O and process control.** These are not modelled:
  - `processCSV` (file reading), `runCLI`, `showUsage` and the top-level run of `src/cli.js`;
  - `convertCsvToHtml` and `createHtmlDocument` of `src/formatters/htmlConvert.js`;
  - the FileReader promise, `downloadContent` and `calculateTotalSize` of `src/utils/fileUtils.js`.
  All of them use the file system, the console, the DOM or `process.exit`. `Cli.Run` models the pure part of `processCSV`: `pipe(...transformations)(csvContent)`.
- **`getDefaultOutputPath`.** A thin wrapper over Node's `path` library, whose behaviour is not visible here.
- **Floating point.** `calculateSizePercent`, and the numeric branch of the sort comparator (`isNaN` / `parseFloat`), are not modelled.
- Sorting.SortedByColumnProperties: keys are compared in lexicographic string order. This equals the source's order only when `isNaN` holds for every key in the column. Empty and blank cells fail that test, because `isNaN("")` and `isNaN(" ")` are false, and so do texts such as `1e3` or `0x1F`. Such a key takes the numeric branch; `parseFloat` of a blank cell is `NaN`, which the comparator ranks equal to every other key (src/transformations/sort.js:23-28). The model still sorts such a column in string order.
  - Characters are ordered by code point. This agrees with JavaScript's UTF-16 order on the Basic Multilingual Plane.
- Sorting.SortByColumn: requires every data row to have the key cell. With a missing cell the source's comparator is inconsistent, and `Array.prototype.sort` then gives an implementation-defined order. The in-place sort is modelled as a stable insertion sort. Because the source's sort is stable, the result is the same.
- Columns.Swap: requires 1 ≤ n, m ≤ the row length. Outside that range the source's behaviour depends on the side. An index above the row length grows the row with an `undefined` cell. An index of 0 or below, or `NaN`, names a plain property instead of an array element (src/transformations/columns.js:15-19). The row keeps its length and the other cell becomes `undefined`: `swap(0, 2)` on `[a, b]` gives `[a, undefined]`, which serializes as `a,`. The pipeline's `Cli.Apply` gives `Fault` in all of these cases.
  - Cli.Apply also gives `Fault` for a transpose of an empty matrix, where `Math.max()` is `-Infinity`, and for a wrongly typed value.
- Cli.ParseInt: models integer `parseInt`. It does not model:
  - the float rounding of numbers beyond 2^53;
  - the `-0` of `parseInt("-0")`;
  - the effect of an explicit radix argument, which the source never passes.
- **Lodash.** `_.curry` is modelled as an ordinary function taking all its arguments. JavaScript's rule that integer-like property keys come first in `Object.keys` is not modelled: record fields keep insertion order.
  - Transposed records use only integer-like keys, which are inserted in ascending order anyway, so their order agrees.
- FileUtils.QuotedRow: writes `String(undefined)` for a missing property as `"undefined"` through `FileUtils.JsText`. `convertToCSV` assumes every record has every header key.
- **Cli option values.** The scanning lemmas (`Cli.Step`, `Cli.ScanGroups`, `Cli.LaterGroupWins`, …) are stated for any number reader. The program's `parseInt` is the instance that `Cli.Scan` uses.
- Cli.ParseOptions: checks the `default` case inside the loop as the source does. Its `console.error` is not modelled; the exit is returned as an outcome.
- Html.OneRowTable: states the one-row table in terms of the row's rendering; the row's own layout is given by `Html.OneCellRow`.
- HtmlConvert.OneRowBorderedTable: states the one-row table in terms of `HtmlConvert.RowHtml`; the row's own layout is given by `HtmlConvert.OneCellRowHtml`.
- **Splice.** `splice` and `insertrow` / `insertcolumn` are modelled on values, not on the copied array they mutate. They copy first, so no caller can observe the mutation.
- **`formatToHTML`** (`src/formatters/fileFormatters.js`) is not part of this model.

## Findings

| source | as written | input that shows it | evidently intended | confidence | as-written member | corrected member |
|---|---|---|---|---|---|---|
| src/transformations/csvTransformations.js:32 | `deleteRow(rowIndex)`, documented with a 0-based record index, deletes matrix row `rowIndex`, because `rowdelete` is 1-based and row 0 is the header. Index 0 deletes the header, so the first record's values become property names; index k deletes record k-1 | records x, y, z with ids 10, 20, 30 and field "a": `deleteRow(1)` deletes x, not y; `deleteRow(0)` gives records keyed by "x" | delete the 0-based record `rowIndex` | high (not executed) | CsvExamples.DeleteRowZeroExample | CsvTransformations.DeleteRecordRemovesOnlyIt |
| src/transformations/csvTransformations.js:34 | after a deletion, ids are given out by position from the unchanged id map, so each survivor after the deleted record takes its predecessor's id | the same records, `deleteRow(1)`: y comes back with id 10 and z with id 20 | each surviving record keeps its own id | high (not executed) | CsvExamples.DeleteRowOneExample | CsvExamples.DeleteRecordExample |
