/**
 * Splitting one CSV line into columns (parseCSVRow in test/main.cpp),
 * with the semantics of repeated std::getline(stream, column, ',').
 */
module Csv {

  datatype CsvRow = CsvRow(columns: seq<string>)

  /** Index of the first ',' at or after pos, or |line| when there is none. */
  function NextComma(line: string, pos: nat): (e: nat)
    requires pos <= |line|
    ensures pos <= e <= |line|
    decreases |line| - pos
  {
    if pos == |line| then pos
    else if line[pos] == ',' then pos
    else NextComma(line, pos + 1)
  }

  /** NextComma stops at the first ',' and only there. */
  lemma {:induction false} NextCommaSpec(line: string, pos: nat)
    requires pos <= |line|
    ensures forall j :: pos <= j < NextComma(line, pos) ==> line[j] != ','
    ensures NextComma(line, pos) < |line| ==> line[NextComma(line, pos)] == ','
    decreases |line| - pos
  {
    if pos < |line| && line[pos] != ',' {
      NextCommaSpec(line, pos + 1);
    }
  }

  /** NextComma stops on a ','; when it runs to the end, the last character is not one. */
  lemma {:induction false} NextCommaStops(line: string, pos: nat)
    requires pos <= |line|
    ensures NextComma(line, pos) < |line| ==> line[NextComma(line, pos)] == ','
    ensures pos < |line| && NextComma(line, pos) == |line| ==> line[|line| - 1] != ','
    decreases |line| - pos
  {
    if pos < |line| && line[pos] != ',' {
      NextCommaStops(line, pos + 1);
    }
  }

  /**
   * The columns getline yields from position pos on: each call takes the characters
   * up to the next ',' (dropping the ','), and the loop stops once the stream is
   * exhausted, so a trailing ',' does not open an empty last column.
   */
  function SplitFrom(line: string, pos: nat): seq<string>
    requires pos <= |line|
    decreases |line| - pos
  {
    if pos == |line| then []
    else
      var e := NextComma(line, pos);
      if e == |line| then [line[pos..]] else [line[pos..e]] + SplitFrom(line, e + 1)
  }

  /** The columns of a whole line. */
  function Split(line: string): seq<string>
  {
    SplitFrom(line, 0)
  }

  /** The columns rejoined with ',' between them. */
  function Join(columns: seq<string>): string
  {
    if columns == [] then ""
    else if |columns| == 1 then columns[0]
    else columns[0] + "," + Join(columns[1..])
  }

  /** Number of ',' characters in line[pos..]. */
  function CommasFrom(line: string, pos: nat): nat
    requires pos <= |line|
    decreases |line| - pos
  {
    if pos == |line| then 0 else (if line[pos] == ',' then 1 else 0) + CommasFrom(line, pos + 1)
  }

  predicate EndsWithComma(s: string)
  {
    s != [] && s[|s| - 1] == ','
  }

  /** parseCSVRow: loop over the line, one getline per column. */
  method ParseCsvRow(line: string) returns (row: CsvRow)
    ensures row.columns == Split(line)
  {
    var columns: seq<string> := [];
    var pos := 0;
    while pos < |line|
      invariant 0 <= pos <= |line|
      invariant columns + SplitFrom(line, pos) == Split(line)
      decreases |line| - pos
    {
      var end := pos;
      while end < |line| && line[end] != ','
        invariant pos <= end <= |line|
        invariant NextComma(line, end) == NextComma(line, pos)
      {
        end := end + 1;
      }
      TakeColumn(line, pos, end, columns);
      columns := columns + [line[pos..end]];
      pos := if end < |line| then end + 1 else end;
    }
    row := CsvRow(columns);
  }

  /** Taking the column that ends at the next ',' keeps the columns seen so far plus those left equal to the whole split. */
  lemma TakeColumn(line: string, pos: nat, end: nat, columns: seq<string>)
    requires pos <= end <= |line| && pos < |line| && NextComma(line, pos) == end
    requires columns + SplitFrom(line, pos) == Split(line)
    ensures (columns + [line[pos..end]]) + SplitFrom(line, if end < |line| then end + 1 else end) == Split(line)
  {
    ColumnAt(line, pos, end);
  }

  /** The column starting at pos ends at the ',' at end, or at the end of the line. */
  lemma ColumnAt(line: string, pos: nat, end: nat)
    requires pos <= end <= |line| && pos < |line| && NextComma(line, pos) == end
    ensures end < |line| ==> SplitFrom(line, pos) == [line[pos..end]] + SplitFrom(line, end + 1)
    ensures end == |line| ==> SplitFrom(line, pos) == [line[pos..end]]
  {
    if end == |line| {
      assert line[pos..] == line[pos..end];
    }
  }

  /** An empty line has no columns, and no column contains ','. */
  lemma {:induction false} ColumnsHaveNoComma(line: string, pos: nat)
    requires pos <= |line|
    ensures pos == |line| <==> SplitFrom(line, pos) == []
    ensures forall i :: 0 <= i < |SplitFrom(line, pos)| ==> ',' !in SplitFrom(line, pos)[i]
    decreases |line| - pos
  {
    if pos < |line| {
      NextCommaSpec(line, pos);
      var e := NextComma(line, pos);
      assert ',' !in line[pos..e];
      if e < |line| {
        ColumnsHaveNoComma(line, e + 1);
      }
    }
  }

  /** Joining a leading column onto at least one more puts a ',' between them. */
  lemma JoinCons(first: string, rest: seq<string>)
    requires rest != []
    ensures Join([first] + rest) == first + "," + Join(rest)
    ensures Join([first] + rest) + "," == first + "," + (Join(rest) + ",")
  {
    assert ([first] + rest)[1..] == rest;
  }

  /** The last column: rejoining it gives the rest of the line, minus a trailing ','. */
  lemma JoinLastColumn(line: string, pos: nat)
    requires pos < |line| && NextComma(line, pos) + 1 >= |line|
    ensures !EndsWithComma(line) ==> Join(SplitFrom(line, pos)) == line[pos..]
    ensures EndsWithComma(line) ==> Join(SplitFrom(line, pos)) + "," == line[pos..]
  {
    NextCommaStops(line, pos);
    var e := NextComma(line, pos);
    if e == |line| {
      assert SplitFrom(line, pos) == [line[pos..]];
    } else {
      assert SplitFrom(line, pos) == [line[pos..e]];
      assert line[e..] == [','];
      assert line[pos..] == line[pos..e] + line[e..];
    }
  }

  /** A suffix of the line splits at a ',' into the part before it, the ',' and the rest. */
  lemma SuffixAtComma(line: string, pos: nat, e: nat)
    requires pos <= e < |line| && line[e] == ','
    ensures line[pos..] == line[pos..e] + "," + line[e + 1..]
    ensures line[pos..] + "," == line[pos..e] + "," + (line[e + 1..] + ",")
  {
    assert line[pos..] == line[pos..e] + "," + line[e + 1..];
  }

  /** Rejoining the columns gives back the rest of the line, minus a trailing ','. */
  lemma {:induction false} JoinSplitFrom(line: string, pos: nat)
    requires pos < |line|
    ensures !EndsWithComma(line) ==> Join(SplitFrom(line, pos)) == line[pos..]
    ensures EndsWithComma(line) ==> Join(SplitFrom(line, pos)) + "," == line[pos..]
    decreases |line| - pos
  {
    var e := NextComma(line, pos);
    if e + 1 >= |line| {
      JoinLastColumn(line, pos);
    } else {
      NextCommaStops(line, pos);
      var first, rest := line[pos..e], SplitFrom(line, e + 1);
      SuffixAtComma(line, pos, e);
      assert SplitFrom(line, pos) == [first] + rest;
      JoinCons(first, rest);
      JoinSplitFrom(line, e + 1);
    }
  }

  /** For a whole line: joining the columns with ',' reproduces it, unless it ends in ','. */
  lemma JoinSplit(line: string)
    ensures !EndsWithComma(line) ==> Join(Split(line)) == line
    ensures EndsWithComma(line) ==> Join(Split(line)) + "," == line
  {
    if line != [] {
      JoinSplitFrom(line, 0);
      assert line[0..] == line;
    }
  }

  /** The characters before the next ',' add no commas to the count. */
  lemma {:induction false} CommasBeforeNextComma(line: string, pos: nat)
    requires pos <= |line|
    ensures CommasFrom(line, pos) == CommasFrom(line, NextComma(line, pos))
    decreases |line| - pos
  {
    if pos < |line| && line[pos] != ',' {
      CommasBeforeNextComma(line, pos + 1);
    }
  }

  /** One column more than the columns after the next ','. */
  lemma SplitFromLength(line: string, pos: nat)
    requires pos < |line|
    ensures NextComma(line, pos) < |line| ==> |SplitFrom(line, pos)| == 1 + |SplitFrom(line, NextComma(line, pos) + 1)|
    ensures NextComma(line, pos) == |line| ==> |SplitFrom(line, pos)| == 1
  {
  }

  /** From a position inside the line, k commas give k + 1 columns, or k when the line ends in ','. */
  lemma {:induction false} ColumnCountFrom(line: string, pos: nat)
    requires pos < |line|
    ensures |SplitFrom(line, pos)| == if EndsWithComma(line) then CommasFrom(line, pos) else CommasFrom(line, pos) + 1
    decreases |line| - pos
  {
    var e := NextComma(line, pos);
    CommasBeforeNextComma(line, pos);
    NextCommaStops(line, pos);
    SplitFromLength(line, pos);
    if e < |line| {
      assert CommasFrom(line, e) == 1 + CommasFrom(line, e + 1);
      if e + 1 < |line| {
        ColumnCountFrom(line, e + 1);
      } else {
        assert CommasFrom(line, e + 1) == 0 && SplitFrom(line, e + 1) == [];
      }
    } else {
      assert CommasFrom(line, e) == 0;
    }
  }

  /** A non-empty line with k commas has k + 1 columns, or k when it ends in ','. */
  lemma ColumnCount(line: string)
    requires line != []
    ensures |Split(line)| == if EndsWithComma(line) then CommasFrom(line, 0) else CommasFrom(line, 0) + 1
  {
    ColumnCountFrom(line, 0);
  }

  /** Adjacent commas give an empty column; a trailing comma gives none. */
  lemma {:induction false} SplitExamples()
    ensures Split("a,,b") == ["a", "", "b"]
    ensures Split("a,") == ["a"]
    ensures Split("") == []
  {
    var s := "a,,b";
    assert NextComma(s, 0) == 1;
    assert NextComma(s, 2) == 2;
    assert NextComma(s, 3) == 4;
    assert s[0..1] == "a" && s[2..2] == "" && s[3..] == "b";
    var t := "a,";
    assert NextComma(t, 0) == 1;
    assert t[0..1] == "a";
  }
}
