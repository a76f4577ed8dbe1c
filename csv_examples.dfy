/**
 * Worked examples of the record adapter on three records with ids 10, 20
 * and 30 and one field "a".
 */
module CsvExamples {
  import opened Wrappers
  import opened Matrices
  import opened Records
  import opened CsvTransformations

  function Sample(): seq<Record>
  {
    [ Record(Some(NumId(10)), [Field("a", "x")]),
      Record(Some(NumId(20)), [Field("a", "y")]),
      Record(Some(NumId(30)), [Field("a", "z")]) ]
  }

  lemma SampleUniform()
    ensures Uniform(Sample()) && HasIds(Sample())
    ensures Headers(Sample()) == ["a"]
  {
    var d := Sample();
    assert Names(d[0].fields) == ["a"];
    assert Names(d[1].fields) == ["a"];
    assert Names(d[2].fields) == ["a"];
  }

  /**
   * `deleteRow(1)`, documented as deleting the 0-based record 1 ("y"),
   * deletes record 0 ("x") instead, and the survivors take the first two
   * ids, so "y" now carries the id 10 of the deleted record.
   */
  lemma DeleteRowOneExample()
    ensures DeleteRow(1, Sample())
         == [Record(Some(NumId(10)), [Field("a", "y")]), Record(Some(NumId(20)), [Field("a", "z")])]
  {
    SampleUniform();
    DeleteRowRemovesRecord(1, Sample());
  }

  /** `deleteRow(0)` deletes the header row: "x" becomes the property name. */
  lemma DeleteRowZeroExample()
    ensures DeleteRow(0, Sample())
         == [Record(Some(NumId(10)), [Field("x", "y")]), Record(Some(NumId(20)), [Field("x", "z")])]
  {
    var d := Sample();
    SampleUniform();
    DeleteRowZeroDropsHeader(d);
    LookupAt(d[0].fields, 0);
    LookupAt(d[1].fields, 0);
    LookupAt(d[2].fields, 0);
    assert Cells(d[0], ["a"]) == ["x"];
    assert Cells(d[1], ["a"]) == ["y"];
    assert Cells(d[2], ["a"]) == ["z"];
    BuildRecordDistinct(["x"], ["y"], NumId(10));
    BuildRecordDistinct(["x"], ["z"], NumId(20));
    assert ZipFields(["x"], ["y"]) == [Field("x", "y")];
    assert ZipFields(["x"], ["z"]) == [Field("x", "z")];
  }

  /** The corrected deletion removes record 1 together with its id. */
  lemma DeleteRecordExample()
    ensures DeleteRecord(1, Sample())
         == [Record(Some(NumId(10)), [Field("a", "x")]), Record(Some(NumId(30)), [Field("a", "z")])]
  {
    SampleUniform();
    DeleteRecordRemovesOnlyIt(1, Sample());
  }
}
