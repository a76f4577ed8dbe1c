/**
 * The record adapter (src/transformations/csvTransformations.js): lists of
 * keyed records are converted to a header-plus-rows matrix, transformed
 * with the matrix operations, and converted back. Indices are 0-based at
 * this boundary and translated to the 1-based matrix transforms.
 */
module CsvTransformations {
  import opened Wrappers
  import opened Strings
  import opened Matrices
  import opened Records
  import Columns
  import Rows
  import Transposition

  /** What `dataToMatrix` returns: the matrix and the records' ids in order. */
  datatype Converted = Converted(matrix: Matrix, idMap: seq<Option<Id>>)

  /** The header row: the property names of the first record, without "id". */
  function Headers(data: seq<Record>): seq<string>
    requires |data| > 0
  {
    Keys(data[0])
  }

  /** `headers.map(header => String(row[header] || ''))`. */
  function Cells(rec: Record, headers: seq<string>): (r: Row)
    ensures |r| == |headers|
    ensures forall j :: 0 <= j < |headers| ==> r[j] == ValueOr(rec, headers[j])
  {
    seq(|headers|, j requires 0 <= j < |headers| => ValueOr(rec, headers[j]))
  }

  /** One row of cells per record. */
  function DataRows(data: seq<Record>, headers: seq<string>): (rows: Matrix)
    ensures |rows| == |data|
    ensures forall i :: 0 <= i < |data| ==> rows[i] == Cells(data[i], headers)
  {
    seq(|data|, i requires 0 <= i < |data| => Cells(data[i], headers))
  }

  /** The records' ids, in order. */
  function IdsOf(data: seq<Record>): (ids: seq<Option<Id>>)
    ensures |ids| == |data|
    ensures forall i :: 0 <= i < |data| ==> ids[i] == data[i].id
  {
    seq(|data|, i requires 0 <= i < |data| => data[i].id)
  }

  /**
   * `dataToMatrix`: the header row, then one row per record holding its
   * value for each header ("" when absent); `idMap` lists the ids.
   */
  function DataToMatrix(data: seq<Record>): (c: Converted)
    ensures |c.idMap| == |data|
    ensures forall i :: 0 <= i < |data| ==> c.idMap[i] == data[i].id
    ensures |data| == 0 ==> c.matrix == [[]]
    ensures |data| > 0 ==>
      && |c.matrix| == |data| + 1
      && c.matrix[0] == Headers(data)
      && Rectangular(c.matrix, |Headers(data)|)
    ensures |data| > 0 ==> forall i :: 0 <= i < |data| ==> c.matrix[i + 1] == Cells(data[i], Headers(data))
  {
    if |data| == 0 then Converted([[]], [])
    else Converted([Headers(data)] + DataRows(data, Headers(data)), IdsOf(data))
  }

  lemma DataToMatrixRow(data: seq<Record>, j: nat)
    requires j < |data|
    ensures DataToMatrix(data).matrix[j + 1] == Cells(data[j], Headers(data))
  {
    var rows := DataRows(data, Headers(data));
    assert DataToMatrix(data).matrix == [Headers(data)] + rows;
    assert rows[j] == Cells(data[j], Headers(data));
  }

  /** `dataToMatrix` as the source performs it: one push per record. */
  method BuildMatrix(data: seq<Record>) returns (c: Converted)
    ensures c == DataToMatrix(data)
  {
    if |data| == 0 {
      return Converted([[]], []);
    }
    var headers := Keys(data[0]);
    var matrix := [headers];
    var idMap := [];
    var i := 0;
    while i < |data|
      invariant 0 <= i <= |data|
      invariant matrix == [headers] + DataRows(data[..i], headers)
      invariant idMap == IdsOf(data[..i])
    {
      idMap := idMap + [data[i].id];
      matrix := matrix + [Cells(data[i], headers)];
      assert DataRows(data[..i + 1], headers) == DataRows(data[..i], headers) + [Cells(data[i], headers)];
      i := i + 1;
    }
    assert data[..i] == data;
    c := Converted(matrix, idMap);
  }

  /**
   * The id `matrixToData` gives record `k`: `idMap[k]` when the map has it
   * and it is defined, otherwise the position `k`.
   */
  function IdFor(idMap: seq<Option<Id>>, k: nat): Id
  {
    if k < |idMap| && idMap[k].Some? then idMap[k].value else NumId(k)
  }

  /** The record `headers.forEach` builds after its first `n` steps. */
  function Fill(rec: Record, headers: seq<string>, row: Row, n: nat): Record
    requires n <= |headers|
  {
    if n == 0 then rec
    else SetField(Fill(rec, headers, row, n - 1), headers[n - 1], CellOr(row, n - 1))
  }

  /** Step n + 1 of `headers.forEach` sets header n to cell n. */
  lemma FillNext(rec: Record, headers: seq<string>, row: Row, n: nat)
    requires n < |headers|
    ensures Fill(rec, headers, row, n + 1) == SetField(Fill(rec, headers, row, n), headers[n], CellOr(row, n))
  {
  }

  /** One record of `matrixToData`: the id first, then `obj[header] = row[index] || ''`. */
  function BuildRecord(headers: seq<string>, row: Row, id: Id): Record
  {
    Fill(Record(Some(id), []), headers, row, |headers|)
  }

  /** Header `k` paired with cell `k` ("" when the row is short). */
  function ZipFields(headers: seq<string>, row: Row): (fields: seq<Field>)
    ensures |fields| == |headers| && Names(fields) == headers
    ensures forall k :: 0 <= k < |headers| ==> fields[k].value == CellOr(row, k)
  {
    seq(|headers|, k requires 0 <= k < |headers| => Field(headers[k], CellOr(row, k)))
  }

  /** Zipping one more header appends one field. */
  lemma ZipFieldsSnoc(headers: seq<string>, row: Row, n: nat)
    requires 0 < n <= |headers|
    ensures ZipFields(headers[..n], row) == ZipFields(headers[..n - 1], row) + [Field(headers[n - 1], CellOr(row, n - 1))]
  {
    var z, before := ZipFields(headers[..n], row), ZipFields(headers[..n - 1], row);
    forall k | 0 <= k < n ensures z[k] == (before + [Field(headers[n - 1], CellOr(row, n - 1))])[k] {
      assert headers[..n][k] == headers[k];
      if k < n - 1 {
        assert headers[..n - 1][k] == headers[k];
      }
    }
  }

  lemma {:induction false} FillDistinct(headers: seq<string>, row: Row, id: Id, n: nat)
    requires Distinct(headers) && "id" !in headers && n <= |headers|
    ensures Fill(Record(Some(id), []), headers, row, n) == Record(Some(id), ZipFields(headers[..n], row))
  {
    if n > 0 {
      FillDistinct(headers, row, id, n - 1);
      DistinctLast(headers, n);
      assert headers[n - 1] in headers;
      SetFieldAppends(Record(Some(id), ZipFields(headers[..n - 1], row)), headers[n - 1], CellOr(row, n - 1));
      ZipFieldsSnoc(headers, row, n);
    }
  }

  /**
   * With distinct header names none of which is "id", a built record has
   * the given id and one field per header, in header order, holding the
   * cell below it.
   */
  lemma BuildRecordDistinct(headers: seq<string>, row: Row, id: Id)
    requires Distinct(headers) && "id" !in headers
    ensures BuildRecord(headers, row, id) == Record(Some(id), ZipFields(headers, row))
  {
    FillDistinct(headers, row, id, |headers|);
    assert headers[..|headers|] == headers;
  }

  /**
   * `matrixToData`: a matrix of at most one row gives no records;
   * otherwise record k is built from the header row and row k + 1.
   */
  function MatrixToData(matrix: Matrix, idMap: seq<Option<Id>>): (r: seq<Record>)
    ensures |matrix| <= 1 ==> r == []
    ensures |matrix| > 1 ==> |r| == |matrix| - 1
  {
    if |matrix| <= 1 then []
    else seq(|matrix| - 1, k requires 0 <= k < |matrix| - 1 => BuildRecord(matrix[0], matrix[k + 1], IdFor(idMap, k)))
  }

  lemma MatrixToDataAt(matrix: Matrix, idMap: seq<Option<Id>>, k: nat)
    requires |matrix| > 1 && k < |matrix| - 1
    ensures MatrixToData(matrix, idMap)[k] == BuildRecord(matrix[0], matrix[k + 1], IdFor(idMap, k))
  {
    var r := MatrixToData(matrix, idMap);
    assert r[k] == BuildRecord(matrix[0], matrix[k + 1], IdFor(idMap, k));
  }

  /**
   * With a header row of distinct names other than "id", record k of
   * `matrixToData` has id `idMap[k]` (or k) and pairs each header with the
   * cell below it in row k + 1.
   */
  lemma MatrixToDataZips(matrix: Matrix, idMap: seq<Option<Id>>, k: nat)
    requires |matrix| > 1 && k < |matrix| - 1
    requires Distinct(matrix[0]) && "id" !in matrix[0]
    ensures MatrixToData(matrix, idMap)[k] == Record(Some(IdFor(idMap, k)), ZipFields(matrix[0], matrix[k + 1]))
  {
    MatrixToDataAt(matrix, idMap, k);
    BuildRecordDistinct(matrix[0], matrix[k + 1], IdFor(idMap, k));
  }

  /** The body of `matrixToData`'s loop: `obj[header] = row[index] || ''` per header. */
  method FillRecord(headers: seq<string>, row: Row, id: Id) returns (obj: Record)
    ensures obj == BuildRecord(headers, row, id)
  {
    ghost var empty := Record(Some(id), []);
    obj := Record(Some(id), []);
    var index := 0;
    while index < |headers|
      invariant 0 <= index <= |headers|
      invariant obj == Fill(empty, headers, row, index)
    {
      FillNext(empty, headers, row, index);
      obj := SetField(obj, headers[index], CellOr(row, index));
      index := index + 1;
    }
  }

  /** What the matrix of uniform records says about record i. */
  lemma DataRecordFacts(data: seq<Record>, i: nat)
    requires Uniform(data) && i < |data|
    ensures WellFormed(data[i]) && Names(data[i].fields) == Headers(data)
    ensures |DataToMatrix(data).matrix| == |data| + 1 && DataToMatrix(data).matrix[0] == Headers(data)
    ensures DataToMatrix(data).matrix[i + 1] == Cells(data[i], Headers(data))
  {
    DataToMatrixRow(data, i);
  }

  /** Record i's entry of the id map: its id, or i when it has none. */
  lemma DataIdFor(data: seq<Record>, i: nat)
    requires i < |data|
    ensures IdFor(DataToMatrix(data).idMap, i) == data[i].id.GetOr(NumId(i))
  {
  }

  /**
   * A row of a well-formed record's cells, under a header row of its own
   * names, is rebuilt into that record with the id `matrixToData` assigns.
   */
  lemma RecordFromRow(matrix: Matrix, idMap: seq<Option<Id>>, k: nat, rec: Record)
    requires |matrix| > 1 && k < |matrix| - 1
    requires WellFormed(rec) && matrix[0] == Names(rec.fields) && matrix[k + 1] == Cells(rec, matrix[0])
    ensures MatrixToData(matrix, idMap)[k] == Record(Some(IdFor(idMap, k)), rec.fields)
  {
    MatrixToDataZips(matrix, idMap, k);
    ZipCells(rec, matrix[0]);
  }

  /** `matrixToData` as the source performs it: a `for` loop over the rows. */
  method BuildRecords(matrix: Matrix, idMap: seq<Option<Id>>) returns (data: seq<Record>)
    ensures data == MatrixToData(matrix, idMap)
  {
    if |matrix| <= 1 {
      return [];
    }
    var headers := matrix[0];
    data := [];
    var i := 1;
    while i < |matrix|
      invariant 1 <= i <= |matrix|
      invariant |data| == i - 1
      invariant forall k :: 0 <= k < i - 1 ==> data[k] == BuildRecord(headers, matrix[k + 1], IdFor(idMap, k))
    {
      var id := if |idMap| >= i && idMap[i - 1].Some? then idMap[i - 1].value else NumId(i - 1);
      assert id == IdFor(idMap, i - 1);
      var obj := FillRecord(headers, matrix[i], id);
      data := data + [obj];
      i := i + 1;
    }
    ghost var r := MatrixToData(matrix, idMap);
    forall k | 0 <= k < |r| ensures data[k] == r[k] {
      MatrixToDataAt(matrix, idMap, k);
    }
  }

  /** Transposed record fields: key c (as text) holds cell c. */
  function NumberedFields(row: Row): (fields: seq<Field>)
    ensures |fields| == |row|
  {
    seq(|row|, c requires 0 <= c < |row| => Field(NatToString(c), row[c]))
  }

  /** The keys "0", "1", ... are distinct and none is "id". */
  lemma NumberedFieldsWellFormed(row: Row)
    ensures WellFormed(Record(None, NumberedFields(row)))
    ensures forall c :: 0 <= c < |row| ==> Lookup(NumberedFields(row), NatToString(c)) == Some(row[c])
  {
    var fields := NumberedFields(row);
    forall i, j | 0 <= i < j < |fields| ensures Names(fields)[i] != Names(fields)[j] {
      if NatToString(i) == NatToString(j) {
        NatToStringInjective(i, j);
      }
    }
    forall i | 0 <= i < |fields| ensures Names(fields)[i] != "id" {
      assert IsDigit(NatToString(i)[0]);
    }
    forall c | 0 <= c < |row| ensures Lookup(fields, NatToString(c)) == Some(row[c]) {
      LookupAt(fields, c);
    }
  }

  /** `matrixToTransposedData`: row k becomes a record with id k and keys 0, 1, ... */
  function MatrixToTransposedData(matrix: Matrix): (r: seq<Record>)
    ensures |r| == |matrix|
    ensures forall k :: 0 <= k < |matrix| ==>
      && r[k].id == Some(NumId(k))
      && |r[k].fields| == |matrix[k]|
      && forall c :: 0 <= c < |matrix[k]| ==> Lookup(r[k].fields, NatToString(c)) == Some(matrix[k][c])
  {
    var r := seq(|matrix|, k requires 0 <= k < |matrix| => Record(Some(NumId(k)), NumberedFields(matrix[k])));
    assert forall k :: 0 <= k < |matrix| ==> r[k].fields == NumberedFields(matrix[k]);
    NumberedFieldsAll(matrix);
    r
  }

  lemma NumberedFieldsAll(matrix: Matrix)
    ensures forall k, c :: 0 <= k < |matrix| && 0 <= c < |matrix[k]| ==>
      Lookup(NumberedFields(matrix[k]), NatToString(c)) == Some(matrix[k][c])
  {
    forall k | 0 <= k < |matrix| {
      NumberedFieldsWellFormed(matrix[k]);
    }
  }

  /** Key c is new after keys 0 to c - 1, and it extends the numbered fields by one. */
  lemma NumberedFieldAppends(row: Row, c: nat)
    requires c < |row|
    ensures NatToString(c) != "id" && NatToString(c) !in Names(NumberedFields(row[..c]))
    ensures NumberedFields(row[..c + 1]) == NumberedFields(row[..c]) + [Field(NatToString(c), row[c])]
  {
    var short := NumberedFields(row[..c]);
    var longer := NumberedFields(row[..c + 1]);
    assert IsDigit(NatToString(c)[0]);
    forall i | 0 <= i < c ensures Names(short)[i] != NatToString(c) {
      if Names(short)[i] == NatToString(c) {
        NatToStringInjective(i, c);
      }
    }
    forall i | 0 <= i < c ensures longer[i] == short[i] {
      assert row[..c + 1][i] == row[..c][i];
    }
    assert longer == short + [Field(NatToString(c), row[c])];
  }

  /** `matrixToTransposedData` as the source performs it: `obj[colIndex] = value` per cell. */
  method BuildTransposedRecords(matrix: Matrix) returns (data: seq<Record>)
    ensures data == MatrixToTransposedData(matrix)
  {
    data := [];
    var k := 0;
    while k < |matrix|
      invariant 0 <= k <= |matrix|
      invariant data == MatrixToTransposedData(matrix[..k])
    {
      var row := matrix[k];
      var obj := Record(Some(NumId(k)), []);
      var c := 0;
      while c < |row|
        invariant 0 <= c <= |row|
        invariant obj == Record(Some(NumId(k)), NumberedFields(row[..c]))
      {
        NumberedFieldAppends(row, c);
        SetFieldAppends(obj, NatToString(c), row[c]);
        obj := SetField(obj, NatToString(c), row[c]);
        c := c + 1;
      }
      assert row[..c] == row;
      assert matrix[..k + 1] == matrix[..k] + [row];
      data := data + [obj];
      k := k + 1;
    }
    assert matrix[..k] == matrix;
  }

  // ----- the entry points -----

  /** Every record is well formed and has the first record's names, in the same order. */
  predicate Uniform(data: seq<Record>)
  {
    forall i :: 0 <= i < |data| ==> WellFormed(data[i]) && Names(data[i].fields) == Names(data[0].fields)
  }

  /** Every record has an id. */
  predicate HasIds(data: seq<Record>)
  {
    forall i :: 0 <= i < |data| ==> data[i].id.Some?
  }

  /** The records with every absent id replaced by the record's position. */
  function WithIds(data: seq<Record>): (r: seq<Record>)
    ensures |r| == |data|
    ensures forall i :: 0 <= i < |data| ==> r[i] == Record(Some(data[i].id.GetOr(NumId(i))), data[i].fields)
    ensures HasIds(data) ==> r == data
  {
    seq(|data|, i requires 0 <= i < |data| => Record(Some(data[i].id.GetOr(NumId(i))), data[i].fields))
  }

  /** A well-formed record's cells under its own names zip back to its fields. */
  lemma ZipCells(rec: Record, headers: seq<string>)
    requires WellFormed(rec) && Names(rec.fields) == headers
    ensures ZipFields(headers, Cells(rec, headers)) == rec.fields
  {
    forall k | 0 <= k < |headers| ensures ZipFields(headers, Cells(rec, headers))[k] == rec.fields[k] {
      LookupAt(rec.fields, k);
    }
  }

  /**
   * Converting uniform records to a matrix and back gives the same records,
   * except that an absent id becomes the record's position.
   */
  lemma RoundTrip(data: seq<Record>)
    requires Uniform(data)
    ensures MatrixToData(DataToMatrix(data).matrix, DataToMatrix(data).idMap) == WithIds(data)
  {
    if |data| > 0 {
      var c := DataToMatrix(data);
      var h := Headers(data);
      var r := MatrixToData(c.matrix, c.idMap);
      forall k | 0 <= k < |data| ensures r[k] == WithIds(data)[k] {
        DataToMatrixRow(data, k);
        RecordFromRow(c.matrix, c.idMap, k, data[k]);
      }
    }
  }

  /** With every id present the round trip is the identity. */
  lemma RoundTripKeepsRecords(data: seq<Record>)
    requires Uniform(data) && HasIds(data)
    ensures MatrixToData(DataToMatrix(data).matrix, DataToMatrix(data).idMap) == data
  {
    RoundTrip(data);
  }

  /**
   * `swapColumns(col1, col2)`: exchanges the two 0-based columns of the
   * record matrix, the header cells included.
   */
  function SwapColumns(col1: int, col2: int, data: seq<Record>): (r: seq<Record>)
    requires |data| > 0 ==> 0 <= col1 < |Headers(data)| && 0 <= col2 < |Headers(data)|
    ensures |r| == |data|
  {
    if |data| == 0 then []
    else
      var c := DataToMatrix(data);
      assert Columns.SwapInRange(col1 + 1, col2 + 1, c.matrix);
      MatrixToData(Columns.Swap(col1 + 1, col2 + 1, c.matrix), c.idMap)
  }

  /**
   * Swapping columns of uniform records exchanges two fields of every
   * record and keeps each record's id (its position when absent).
   */
  lemma SwapColumnsRecord(col1: int, col2: int, data: seq<Record>, i: nat)
    requires |data| > 0 && Uniform(data) && i < |data|
    requires 0 <= col1 < |Headers(data)| && 0 <= col2 < |Headers(data)|
    ensures SwapColumns(col1, col2, data)[i]
         == Record(Some(data[i].id.GetOr(NumId(i))), data[i].fields[col1 := data[i].fields[col2]][col2 := data[i].fields[col1]])
  {
    var c := DataToMatrix(data);
    assert Columns.SwapInRange(col1 + 1, col2 + 1, c.matrix);
    assert SwapColumns(col1, col2, data) == MatrixToData(Columns.Swap(col1 + 1, col2 + 1, c.matrix), c.idMap);
    DataIdFor(data, i);
    DataRecordFacts(data, i);
    SwapRowRecord(c.matrix, c.idMap, i, data[i], col1, col2);
  }

  /** Swapping two columns of a matrix whose row k + 1 holds the cells of `rec` swaps two fields of record k. */
  lemma SwapRowRecord(m: Matrix, ids: seq<Option<Id>>, k: nat, rec: Record, a: nat, b: nat)
    requires k + 1 < |m| && WellFormed(rec) && a < |rec.fields| && b < |rec.fields|
    requires m[0] == Names(rec.fields) && m[k + 1] == Cells(rec, m[0])
    requires Columns.SwapInRange(a + 1, b + 1, m)
    ensures MatrixToData(Columns.Swap(a + 1, b + 1, m), ids)[k]
         == Record(Some(IdFor(ids, k)), rec.fields[a := rec.fields[b]][b := rec.fields[a]])
  {
    var sw := Columns.Swap(a + 1, b + 1, m);
    SwappedCells(rec, a, b);
    var swapped := Record(rec.id, rec.fields[a := rec.fields[b]][b := rec.fields[a]]);
    assert sw[0] == Columns.SwapCells(m[0], a, b);
    assert sw[k + 1] == Columns.SwapCells(m[k + 1], a, b);
    RecordFromRow(sw, ids, k, swapped);
  }

  /**
   * The row of a well-formed record's cells with two cells exchanged is the
   * row of the record with the two fields exchanged, under the exchanged
   * header.
   */
  lemma SwappedCells(rec: Record, a: nat, b: nat)
    requires WellFormed(rec) && a < |rec.fields| && b < |rec.fields|
    ensures var swappedRec := Record(rec.id, rec.fields[a := rec.fields[b]][b := rec.fields[a]]);
      && WellFormed(swappedRec)
      && Names(swappedRec.fields) == Columns.SwapCells(Names(rec.fields), a, b)
      && Columns.SwapCells(Cells(rec, Names(rec.fields)), a, b) == Cells(swappedRec, Names(swappedRec.fields))
  {
    var fields := rec.fields;
    var h := Names(fields);
    var swapped := fields[a := fields[b]][b := fields[a]];
    var swappedRec := Record(rec.id, swapped);
    LookupSwapped(fields, a, b);
    var sh := Columns.SwapCells(h, a, b);
    SwappedNames(fields, a, b);
    assert "id" !in sh by {
      forall k | 0 <= k < |sh| ensures sh[k] != "id" {
        assert sh[k] == h[if k == a then b else if k == b then a else k];
      }
    }
    var row := Columns.SwapCells(Cells(rec, h), a, b);
    forall k | 0 <= k < |h| ensures row[k] == Cells(swappedRec, sh)[k] {
      var k' := if k == a then b else if k == b then a else k;
      assert sh[k] == h[k'] && row[k] == Cells(rec, h)[k'];
      assert Lookup(swapped, sh[k]) == Lookup(fields, sh[k]);
    }
  }

  /** Exchanging two fields exchanges their two names. */
  lemma SwappedNames(fields: seq<Field>, a: nat, b: nat)
    requires a < |fields| && b < |fields|
    ensures Names(fields[a := fields[b]][b := fields[a]]) == Columns.SwapCells(Names(fields), a, b)
  {
    var f := fields[a := fields[b]][b := fields[a]];
    var sh := Columns.SwapCells(Names(fields), a, b);
    forall k | 0 <= k < |f| ensures Names(f)[k] == sh[k] {
      assert f[k] == fields[if k == a then b else if k == b then a else k];
    }
  }

  lemma SwapFieldsKeepsLookups(rec: Record, a: nat, b: nat, h: seq<string>)
    requires WellFormed(rec) && Names(rec.fields) == h && a < |h| && b < |h|
    ensures var swapped := rec.fields[a := rec.fields[b]][b := rec.fields[a]];
      && Names(swapped) == Columns.SwapCells(h, a, b)
      && forall n :: Lookup(swapped, n) == Lookup(rec.fields, n)
  {
    SwappedCells(rec, a, b);
    LookupSwapped(rec.fields, a, b);
  }

  /**
   * Swapping columns of uniform records changes only the order of their
   * fields: each record keeps its id and the value of every name.
   */
  lemma SwapColumnsKeepsValues(col1: int, col2: int, data: seq<Record>)
    requires |data| > 0 && Uniform(data)
    requires 0 <= col1 < |Headers(data)| && 0 <= col2 < |Headers(data)|
    ensures forall i :: 0 <= i < |data| ==>
      && SwapColumns(col1, col2, data)[i].id == Some(data[i].id.GetOr(NumId(i)))
      && Names(SwapColumns(col1, col2, data)[i].fields) == Columns.SwapCells(Headers(data), col1, col2)
      && forall n :: Lookup(SwapColumns(col1, col2, data)[i].fields, n) == Lookup(data[i].fields, n)
  {
    var h := Headers(data);
    var r := SwapColumns(col1, col2, data);
    forall i | 0 <= i < |data|
      ensures r[i].id == Some(data[i].id.GetOr(NumId(i)))
      ensures Names(r[i].fields) == Columns.SwapCells(h, col1, col2)
      ensures forall n :: Lookup(r[i].fields, n) == Lookup(data[i].fields, n)
    {
      SwapColumnsRecord(col1, col2, data, i);
      SwapFieldsKeepsLookups(data[i], col1, col2, h);
    }
  }

  /**
   * `deleteRow(rowIndex)`: deletes matrix row `rowIndex` (1-based
   * `rowIndex + 1`), the header when `rowIndex` is 0, and rebuilds the
   * records with the ids of the unchanged id map.
   */
  function DeleteRow(rowIndex: int, data: seq<Record>): (r: seq<Record>)
    ensures |data| == 0 ==> r == []
  {
    if |data| == 0 then []
    else
      var c := DataToMatrix(data);
      MatrixToData(Rows.RowDelete(rowIndex + 1, c.matrix), c.idMap)
  }

  /** An index that names no matrix row deletes nothing. */
  lemma DeleteRowOutOfRange(rowIndex: int, data: seq<Record>)
    requires Uniform(data) && (rowIndex < 0 || rowIndex > |data|)
    ensures DeleteRow(rowIndex, data) == WithIds(data)
  {
    RoundTrip(data);
  }

  /**
   * For 1 <= rowIndex <= |data|, record rowIndex - 1 disappears and the
   * others keep their fields, but the i-th survivor gets the id of the
   * i-th input record.
   */
  lemma DeleteRowRemovesRecord(rowIndex: int, data: seq<Record>)
    requires Uniform(data) && 1 <= rowIndex <= |data|
    ensures |DeleteRow(rowIndex, data)| == |data| - 1
    ensures forall i :: 0 <= i < |data| - 1 ==>
      DeleteRow(rowIndex, data)[i] == Record(Some(data[i].id.GetOr(NumId(i))), RemoveAt(data, rowIndex - 1)[i].fields)
  {
    forall i | 0 <= i < |data| - 1
      ensures DeleteRow(rowIndex, data)[i] == Record(Some(data[i].id.GetOr(NumId(i))), RemoveAt(data, rowIndex - 1)[i].fields)
    {
      DeleteRowSurvivor(rowIndex, data, i);
    }
  }

  lemma DeleteRowSurvivor(rowIndex: int, data: seq<Record>, i: nat)
    requires Uniform(data) && 1 <= rowIndex <= |data| && i < |data| - 1
    ensures |DeleteRow(rowIndex, data)| == |data| - 1
    ensures DeleteRow(rowIndex, data)[i] == Record(Some(data[i].id.GetOr(NumId(i))), RemoveAt(data, rowIndex - 1)[i].fields)
  {
    var c := DataToMatrix(data);
    var d := RemoveAt(c.matrix, rowIndex);
    DeleteRowMatrix(rowIndex, data);
    var j := if i < rowIndex - 1 then i else i + 1;
    RemoveAtIndex(data, rowIndex - 1, i);
    DataIdFor(data, i);
    DataRecordFacts(data, j);
    assert c.matrix[0] == Names(data[j].fields);
    assert c.matrix[j + 1] == Cells(data[j], c.matrix[0]);
    RowRemovedRecord(c.matrix, c.idMap, rowIndex, i, j + 1, data[j]);
  }

  /** For 1 <= rowIndex <= |data|, `deleteRow` rebuilds the records from the matrix without row rowIndex. */
  lemma DeleteRowMatrix(rowIndex: int, data: seq<Record>)
    requires 1 <= rowIndex <= |data|
    ensures |RemoveAt(DataToMatrix(data).matrix, rowIndex)| == |data|
    ensures DeleteRow(rowIndex, data) == MatrixToData(RemoveAt(DataToMatrix(data).matrix, rowIndex), DataToMatrix(data).idMap)
  {
    var c := DataToMatrix(data);
    assert |c.matrix| == |data| + 1;
    assert Rows.RowDelete(rowIndex + 1, c.matrix) == RemoveAt(c.matrix, rowIndex);
  }

  /** Removing data row q of a matrix leaves record i built from the row that moved into its place. */
  lemma RowRemovedRecord(m: Matrix, ids: seq<Option<Id>>, q: nat, i: nat, src: nat, rec: Record)
    requires 1 <= q < |m| && i + 2 < |m| && src == (if i + 1 < q then i + 1 else i + 2)
    requires WellFormed(rec) && m[0] == Names(rec.fields) && m[src] == Cells(rec, m[0])
    ensures MatrixToData(RemoveAt(m, q), ids)[i] == Record(Some(IdFor(ids, i)), rec.fields)
  {
    var d := RemoveAt(m, q);
    RemoveAtIndex(m, q, 0);
    RemoveAtIndex(m, q, i + 1);
    RecordFromRow(d, ids, i, rec);
  }

  /**
   * `deleteRow(0)` deletes the header: the first record's values become the
   * property names of the records built from the remaining rows.
   */
  lemma DeleteRowZeroDropsHeader(data: seq<Record>)
    requires |data| > 0
    ensures |DeleteRow(0, data)| == |data| - 1
    ensures forall i :: 0 <= i < |data| - 1 ==>
      DeleteRow(0, data)[i] == BuildRecord(Cells(data[0], Headers(data)), Cells(data[i + 1], Headers(data)), IdFor(IdsOf(data), i))
  {
    var c := DataToMatrix(data);
    var h := Headers(data);
    var m := Rows.RowDelete(1, c.matrix);
    assert m == c.matrix[1..];
    assert DeleteRow(0, data) == MatrixToData(m, c.idMap);
    assert c.idMap == IdsOf(data);
    forall i | 0 <= i < |data| - 1
      ensures DeleteRow(0, data)[i] == BuildRecord(Cells(data[0], h), Cells(data[i + 1], h), IdFor(IdsOf(data), i))
    {
      DataToMatrixRow(data, 0);
      DataToMatrixRow(data, i + 1);
      MatrixToDataAt(m, c.idMap, i);
    }
  }

  /**
   * The deletion `deleteRow` is documented to perform: 0-based record
   * `rowIndex` and its id are removed together.
   */
  function DeleteRecord(rowIndex: int, data: seq<Record>): (r: seq<Record>)
  {
    if |data| == 0 then []
    else
      var c := DataToMatrix(data);
      MatrixToData([c.matrix[0]] + RemoveAt(c.matrix[1..], rowIndex), RemoveAt(c.idMap, rowIndex))
  }

  /** Removing one record keeps the records uniform, with ids, under the same headers. */
  lemma RemoveAtUniform(data: seq<Record>, rowIndex: int)
    requires Uniform(data) && HasIds(data) && 0 <= rowIndex < |data| && |data| > 1
    ensures Uniform(RemoveAt(data, rowIndex)) && HasIds(RemoveAt(data, rowIndex))
    ensures Headers(RemoveAt(data, rowIndex)) == Headers(data)
  {
    var rest := RemoveAt(data, rowIndex);
    assert forall i :: 0 <= i < |rest| ==> rest[i] == data[if i < rowIndex then i else i + 1];
    assert rest[0] == data[if rowIndex == 0 then 1 else 0];
  }

  /** Removing a record removes its row of cells. */
  lemma DataRowsRemoveAt(data: seq<Record>, h: seq<string>, rowIndex: int)
    requires 0 <= rowIndex < |data|
    ensures DataRows(RemoveAt(data, rowIndex), h) == RemoveAt(DataRows(data, h), rowIndex)
  {
    var rest := RemoveAt(data, rowIndex);
    var rows := RemoveAt(DataRows(data, h), rowIndex);
    forall i | 0 <= i < |rest| ensures rows[i] == DataRows(rest, h)[i] {
      var j := if i < rowIndex then i else i + 1;
      assert rest[i] == data[j];
      assert rows[i] == DataRows(data, h)[j];
    }
  }

  /** Removing a record removes its id. */
  lemma IdsOfRemoveAt(data: seq<Record>, rowIndex: int)
    requires 0 <= rowIndex < |data|
    ensures IdsOf(RemoveAt(data, rowIndex)) == RemoveAt(IdsOf(data), rowIndex)
  {
    var rest := RemoveAt(data, rowIndex);
    var ids := RemoveAt(IdsOf(data), rowIndex);
    forall i | 0 <= i < |rest| ensures ids[i] == IdsOf(rest)[i] {
      var j := if i < rowIndex then i else i + 1;
      assert rest[i] == data[j];
      assert ids[i] == IdsOf(data)[j];
    }
  }

  /** The matrix of the remaining records is the old matrix without that record's row. */
  lemma DataToMatrixRemoveAt(data: seq<Record>, rowIndex: int)
    requires 0 <= rowIndex < |data| && |data| > 1
    requires Headers(RemoveAt(data, rowIndex)) == Headers(data)
    ensures DataToMatrix(RemoveAt(data, rowIndex))
         == Converted([DataToMatrix(data).matrix[0]] + RemoveAt(DataToMatrix(data).matrix[1..], rowIndex),
                      RemoveAt(DataToMatrix(data).idMap, rowIndex))
  {
    var h := Headers(data);
    var c := DataToMatrix(data);
    assert c.matrix == [h] + DataRows(data, h);
    assert c.matrix[1..] == DataRows(data, h);
    DataRowsRemoveAt(data, h, rowIndex);
    IdsOfRemoveAt(data, rowIndex);
  }

  /** On uniform records with ids, `DeleteRecord` removes that record and changes no other. */
  lemma DeleteRecordRemovesOnlyIt(rowIndex: int, data: seq<Record>)
    requires Uniform(data) && HasIds(data)
    ensures DeleteRecord(rowIndex, data) == RemoveAt(data, rowIndex)
  {
    if |data| > 0 {
      var c := DataToMatrix(data);
      if !(0 <= rowIndex < |data|) {
        assert [c.matrix[0]] + c.matrix[1..] == c.matrix;
        RoundTripKeepsRecords(data);
      } else if |data| > 1 {
        var rest := RemoveAt(data, rowIndex);
        RemoveAtUniform(data, rowIndex);
        DataToMatrixRemoveAt(data, rowIndex);
        RoundTripKeepsRecords(rest);
      }
    }
  }

  /**
   * `deleteColumn(field)`: when `field` is a header it is deleted from every
   * record; otherwise the data comes back as it is.
   */
  function DeleteColumn(field: string, data: seq<Record>): (r: seq<Record>)
    ensures |data| == 0 ==> r == []
    ensures |data| > 0 && field !in Headers(data) ==> r == data
  {
    if |data| == 0 then []
    else
      var colIndex := IndexOf(Headers(data), field);
      if colIndex == -1 then data
      else
        var c := DataToMatrix(data);
        MatrixToData(Columns.ColumnDelete(colIndex + 1, c.matrix), c.idMap)
  }

  /**
   * The row of a well-formed record's cells without cell `p` is the row of
   * the record without field `p`, under the header without name `p`.
   */
  lemma RemovedCells(rec: Record, p: nat)
    requires WellFormed(rec) && p < |rec.fields|
    ensures var kept := Record(rec.id, rec.fields[..p] + rec.fields[p + 1..]);
      && WellFormed(kept)
      && Names(kept.fields) == Names(rec.fields)[..p] + Names(rec.fields)[p + 1..]
      && Cells(rec, Names(rec.fields))[..p] + Cells(rec, Names(rec.fields))[p + 1..] == Cells(kept, Names(kept.fields))
  {
    var fields := rec.fields;
    var h := Names(fields);
    var kept := Record(rec.id, fields[..p] + fields[p + 1..]);
    LookupRemoveAt(fields, p);
    assert forall k :: 0 <= k < |kept.fields| ==> kept.fields[k] == fields[if k < p then k else k + 1];
    assert "id" !in Names(kept.fields) by {
      forall k | 0 <= k < |kept.fields| ensures kept.fields[k].name != "id" {
        assert kept.fields[k] == fields[if k < p then k else k + 1];
      }
    }
    var kh := h[..p] + h[p + 1..];
    assert Names(kept.fields) == kh;
    var row := Cells(rec, h)[..p] + Cells(rec, h)[p + 1..];
    forall k | 0 <= k < |kh| ensures row[k] == Cells(kept, kh)[k] {
      var k' := if k < p then k else k + 1;
      assert kh[k] == h[k'] && row[k] == Cells(rec, h)[k'];
      assert h[k'] != h[p];
      assert Cells(kept, kh)[k] == ValueOr(kept, h[k']);
    }
  }

  /** Deleting header `field` removes that field from record i and keeps its id. */
  lemma DeleteColumnRecord(field: string, data: seq<Record>, i: nat)
    requires |data| > 0 && Uniform(data) && field in Headers(data) && i < |data|
    ensures |DeleteColumn(field, data)| == |data|
    ensures var p := IndexOf(Headers(data), field);
      DeleteColumn(field, data)[i] == Record(Some(data[i].id.GetOr(NumId(i))), data[i].fields[..p] + data[i].fields[p + 1..])
  {
    var c := DataToMatrix(data);
    var p := IndexOf(Headers(data), field);
    assert DeleteColumn(field, data) == MatrixToData(Columns.ColumnDelete(p + 1, c.matrix), c.idMap);
    DataIdFor(data, i);
    DataRecordFacts(data, i);
    ColumnDeletedRecord(c.matrix, c.idMap, i, data[i], p);
  }

  /** Deleting column p of a matrix whose row k + 1 holds the cells of `rec` deletes field p of record k. */
  lemma ColumnDeletedRecord(m: Matrix, ids: seq<Option<Id>>, k: nat, rec: Record, p: nat)
    requires k + 1 < |m| && WellFormed(rec) && p < |rec.fields|
    requires m[0] == Names(rec.fields) && m[k + 1] == Cells(rec, m[0])
    ensures MatrixToData(Columns.ColumnDelete(p + 1, m), ids)[k]
         == Record(Some(IdFor(ids, k)), rec.fields[..p] + rec.fields[p + 1..])
  {
    var d := Columns.ColumnDelete(p + 1, m);
    RemovedCells(rec, p);
    var kept := Record(rec.id, rec.fields[..p] + rec.fields[p + 1..]);
    assert d[0] == m[0][..p] + m[0][p + 1..];
    assert d[k + 1] == m[k + 1][..p] + m[k + 1][p + 1..];
    RecordFromRow(d, ids, k, kept);
  }

  /**
   * Deleting a header of uniform records removes that field from each
   * record and keeps its id and the value of every other name.
   */
  lemma DeleteColumnRemovesField(field: string, data: seq<Record>)
    requires |data| > 0 && Uniform(data) && field in Headers(data)
    ensures |DeleteColumn(field, data)| == |data|
    ensures forall i :: 0 <= i < |data| ==>
      && DeleteColumn(field, data)[i].id == Some(data[i].id.GetOr(NumId(i)))
      && Lookup(DeleteColumn(field, data)[i].fields, field) == None
      && forall n :: n != field ==> Lookup(DeleteColumn(field, data)[i].fields, n) == Lookup(data[i].fields, n)
  {
    var r := DeleteColumn(field, data);
    DeleteColumnRecord(field, data, 0);
    forall i | 0 <= i < |data|
      ensures r[i].id == Some(data[i].id.GetOr(NumId(i)))
      ensures Lookup(r[i].fields, field) == None
      ensures forall n :: n != field ==> Lookup(r[i].fields, n) == Lookup(data[i].fields, n)
    {
      DeleteColumnFields(field, data, i);
    }
  }

  /** Record i after deleting header `field`: its id, no `field`, every other value. */
  lemma DeleteColumnFields(field: string, data: seq<Record>, i: nat)
    requires |data| > 0 && Uniform(data) && field in Headers(data) && i < |data|
    ensures |DeleteColumn(field, data)| == |data|
    ensures DeleteColumn(field, data)[i].id == Some(data[i].id.GetOr(NumId(i)))
    ensures Lookup(DeleteColumn(field, data)[i].fields, field) == None
    ensures forall n :: n != field ==> Lookup(DeleteColumn(field, data)[i].fields, n) == Lookup(data[i].fields, n)
  {
    var p := IndexOf(Headers(data), field);
    var fields := data[i].fields;
    DeleteColumnRecord(field, data, i);
    assert DeleteColumn(field, data)[i].fields == fields[..p] + fields[p + 1..];
    DataRecordFacts(data, i);
    assert fields[p].name == field;
    LookupRemoveAt(fields, p);
  }

  /**
   * `transpose`: one record per header; record k has id k, key "0" holding
   * the header and key j + 1 holding record j's value for that header.
   */
  function Transpose(data: seq<Record>): (r: seq<Record>)
    ensures |data| == 0 ==> r == []
  {
    if |data| == 0 then []
    else MatrixToTransposedData(Transposition.RowsToColumns(DataToMatrix(data).matrix))
  }

  lemma TransposeShape(data: seq<Record>)
    requires |data| > 0
    ensures |Transpose(data)| == |Headers(data)|
    ensures forall k :: 0 <= k < |Headers(data)| ==>
      && Transpose(data)[k].id == Some(NumId(k))
      && |Transpose(data)[k].fields| == |data| + 1
      && Lookup(Transpose(data)[k].fields, NatToString(0)) == Some(Headers(data)[k])
      && forall j :: 0 <= j < |data| ==> Lookup(Transpose(data)[k].fields, NatToString(j + 1)) == Some(ValueOr(data[j], Headers(data)[k]))
  {
    var m := DataToMatrix(data).matrix;
    Transposition.MaxWidthOfRectangular(m, |Headers(data)|);
    var t := Transposition.RowsToColumns(m);
    forall k, j | 0 <= k < |t| && 0 <= j < |data| ensures t[k][j + 1] == ValueOr(data[j], Headers(data)[k]) {
      assert t[k][j + 1] == CellOr(m[j + 1], k);
    }
  }
}
