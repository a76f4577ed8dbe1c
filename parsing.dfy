/**
 * Text to matrix and back (src/utils/parsing.js): split on newlines, then on
 * commas; join the same way. There is no quoting, so a comma or newline in a
 * cell does not survive a serialize-then-parse.
 */
module Parsing {
  import opened Strings
  import opened Matrices

  /** No cell holds a comma or a newline. */
  predicate NoDelimiters(m: Matrix)
  {
    forall i, j :: 0 <= i < |m| && 0 <= j < |m[i]| ==> ',' !in m[i][j] && '\n' !in m[i][j]
  }

  /**
   * `parseCSV`: one row per newline-separated line, one cell per
   * comma-separated piece of the line.
   */
  function ParseCsv(csv: string): (m: Matrix)
    ensures |m| == Count(csv, '\n') + 1
    ensures forall i :: 0 <= i < |m| ==> |m[i]| >= 1
    ensures NoDelimiters(m)
  {
    var lines := Split(csv, '\n');
    seq(|lines|, i requires 0 <= i < |lines| => Split(lines[i], ','))
  }

  /** Each row's cells joined by ','. */
  function RowTexts(m: Matrix): seq<string>
  {
    seq(|m|, i requires 0 <= i < |m| => Join(m[i], [',']))
  }

  /** `serializeCSV`: each row's cells joined by ',', the rows joined by '\n'. */
  function SerializeCsv(m: Matrix): string
  {
    Join(RowTexts(m), ['\n'])
  }

  /** Parsing then serializing gives back every text exactly. */
  lemma ParseThenSerialize(csv: string)
    ensures SerializeCsv(ParseCsv(csv)) == csv
  {
    var lines := Split(csv, '\n');
    var m := ParseCsv(csv);
    var joined := RowTexts(m);
    forall i | 0 <= i < |lines| ensures joined[i] == lines[i] {
      JoinSplit(lines[i], ',');
    }
    assert joined == lines;
    JoinSplit(csv, '\n');
  }

  /** With no newline in a cell, the lines of the text are the rows' texts. */
  lemma LinesOfSerialized(m: Matrix)
    requires |m| > 0
    requires forall i, j :: 0 <= i < |m| && 0 <= j < |m[i]| ==> '\n' !in m[i][j]
    ensures Split(SerializeCsv(m), '\n') == RowTexts(m)
  {
    var lines := RowTexts(m);
    forall i | 0 <= i < |m| ensures '\n' !in lines[i] {
      JoinAvoids(m[i], [','], '\n');
    }
    SplitJoin(lines, '\n');
  }

  /**
   * Serializing then parsing gives back a matrix that has at least one row,
   * no empty row and no comma or newline in a cell.
   */
  lemma SerializeThenParse(m: Matrix)
    requires |m| > 0
    requires forall i :: 0 <= i < |m| ==> |m[i]| > 0
    requires NoDelimiters(m)
    ensures ParseCsv(SerializeCsv(m)) == m
  {
    LinesOfSerialized(m);
    var p := ParseCsv(SerializeCsv(m));
    forall i | 0 <= i < |m| ensures p[i] == m[i] {
      SplitJoin(m[i], ',');
    }
  }

  /** The first example of the test suite: a 3 by 3 grid of letters. */
  lemma ParseExample()
    ensures ParseCsv("A,B,C\nD,E,F\nG,H,I") == [["A", "B", "C"], ["D", "E", "F"], ["G", "H", "I"]]
  {
    var m := [["A", "B", "C"], ["D", "E", "F"], ["G", "H", "I"]];
    var lines := RowTexts(m);
    JoinThree("A", "B", "C", [',']);
    assert lines[0] == "A,B,C";
    JoinThree("D", "E", "F", [',']);
    assert lines[1] == "D,E,F";
    JoinThree("G", "H", "I", [',']);
    assert lines[2] == "G,H,I";
    assert lines == ["A,B,C", "D,E,F", "G,H,I"];
    JoinThree("A,B,C", "D,E,F", "G,H,I", ['\n']);
    assert SerializeCsv(m) == "A,B,C\nD,E,F\nG,H,I";
    SerializeThenParse(m);
  }
}
