/**
 * FinalGradesViewer.loadTableModel: a report file read back into the column names and the rows of
 * a table, each cell a trimmed part of a naive comma split (no quoting), each row cut or padded to
 * the number of columns. The lemmas read back what the writers of StudentGradeProcessor wrote.
 */
module Viewer {
  import opened Outcomes
  import opened JavaText
  import opened JavaNumbers
  import opened LexOrder
  import opened Grades
  import opened Roster

  /** The IOException loadTableModel throws when the file has no first line. */
  datatype LoadError = EmptyFile

  /**
   * A DefaultTableModel: the column names and the rows, in file order. Every row holds one cell
   * per column; a cell the line did not supply is absent (Java's null).
   */
  datatype TableModel = TableModel(columns: seq<string>, rows: seq<seq<Option<string>>>)

  /** The cells of one line: its comma-separated parts, each trimmed, as many as the line has. */
  function Cells(line: string): seq<string> {
    TrimAll(Split(line, ','))
  }

  /** Each part trimmed. */
  function TrimAll(parts: seq<string>): seq<string> {
    Map(parts, Trim)
  }

  function Map<A, B>(s: seq<A>, f: A -> B): seq<B> {
    seq(|s|, i requires 0 <= i < |s| => f(s[i]))
  }

  /** Cells that are all present. */
  function Filled(cells: seq<string>): seq<Option<string>> {
    Map(cells, (c: string) => Some(c))
  }

  /**
   * Vector.setSize(width) on a row, as the DefaultTableModel constructor applies it: a longer
   * row is cut to its first width cells, a shorter one is padded with absent cells.
   */
  function Justify(cells: seq<string>, width: nat): (r: seq<Option<string>>)
    ensures |r| == width
    ensures forall i :: 0 <= i < width && i < |cells| ==> r[i] == Some(cells[i])
    ensures forall i :: |cells| <= i < width ==> r[i] == None
  {
    if |cells| >= width then Filled(cells[..width])
    else Filled(cells) + seq(width - |cells|, _ => None)
  }

  /** Every row justified to the width. */
  function JustifyRows(data: seq<seq<string>>, width: nat): seq<seq<Option<string>>> {
    Map(data, (row: seq<string>) => Justify(row, width))
  }

  /**
   * What loadTableModel returns for the lines of a file: the header's cells, then one row per
   * further line, justified to the number of columns.
   */
  function TableOf(lines: seq<string>): Result<TableModel, LoadError> {
    if lines == [] then Failure(EmptyFile)
    else
      var columns := Cells(lines[0]);
      Success(TableModel(columns, JustifyRows(Map(lines[1..], Cells), |columns|)))
  }

  /** A row of exactly the table's width is kept whole, every cell present. */
  lemma JustifyFits(cells: seq<string>, width: nat)
    requires |cells| == width
    ensures Justify(cells, width) == Filled(cells)
  {
    var r := Justify(cells, width);
    assert forall i :: 0 <= i < width ==> r[i] == Filled(cells)[i];
  }

  /** Rows that all have the table's width are kept whole. */
  lemma JustifyRowsFit(data: seq<seq<string>>, width: nat)
    requires forall i :: 0 <= i < |data| ==> |data[i]| == width
    ensures JustifyRows(data, width) == Map(data, Filled)
  {
    forall i | 0 <= i < |data|
      ensures Justify(data[i], width) == Filled(data[i])
    {
      JustifyFits(data[i], width);
    }
    MapEqual(data, (row: seq<string>) => Justify(row, width), data, Filled);
  }

  /**
   * The rows the viewer shows under a two-column header: a longer line is cut, an empty line is
   * one empty cell and an absent one, and a line of commas alone is two absent cells.
   */
  lemma JustifyExamples()
    ensures TableOf(["a,b", "x,y,z", "", ",,"]) ==
            Success(TableModel(["a", "b"], [[Some("x"), Some("y")], [Some(""), None], [None, None]]))
  {
    var text := ["x,y,z", "", ",,"];
    assert ["a,b", "x,y,z", "", ",,"] == ["a,b"] + text;
    TableOfLines("a,b", text);
    CellsOfTwo();
    ExampleData();
    ExampleJustified();
  }

  /** The cells of the example's data lines. */
  lemma ExampleData()
    ensures Map(["x,y,z", "", ",,"], Cells) == [["x", "y", "z"], [""], []]
  {
    CellsOfThree();
    CellsOfEmpty();
    CellsOfCommas();
    MapPointwise(["x,y,z", "", ",,"], Cells, [["x", "y", "z"], [""], []]);
  }

  /** The example's rows justified to two columns. */
  lemma ExampleJustified()
    ensures JustifyRows([["x", "y", "z"], [""], []], 2) == [[Some("x"), Some("y")], [Some(""), None], [None, None]]
  {
    JustifyExampleRows();
    MapPointwise([["x", "y", "z"], [""], []], (row: seq<string>) => Justify(row, 2),
                 [[Some("x"), Some("y")], [Some(""), None], [None, None]]);
  }

  /** The example rows justified to two columns. */
  lemma JustifyExampleRows()
    ensures Justify(["x", "y", "z"], 2) == [Some("x"), Some("y")]
    ensures Justify([""], 2) == [Some(""), None]
    ensures Justify([], 2) == [None, None]
  {
  }

  /** The cells of the example lines. */
  lemma CellsOfTwo()
    ensures Cells("a,b") == ["a", "b"]
  {
    SplitOfJoin(["a", "b"], ',');
    assert Join(["a", "b"], [',']) == "a,b";
    MapPointwise(["a", "b"], Trim, ["a", "b"]);
  }

  lemma CellsOfThree()
    ensures Cells("x,y,z") == ["x", "y", "z"]
  {
    SplitOfJoin(["x", "y", "z"], ',');
    assert Join(["x", "y", "z"], [',']) == "x,y,z";
    MapPointwise(["x", "y", "z"], Trim, ["x", "y", "z"]);
  }

  lemma CellsOfEmpty()
    ensures Cells("") == [""]
  {
    MapPointwise([""], Trim, [""]);
  }

  lemma CellsOfCommas()
    ensures Cells(",,") == []
  {
    assert Pieces(",,", ',') == ["", "", ""] by {
      assert ",,"[1..] == ",";
      assert ","[1..] == "";
    }
  }

  /**
   * loadTableModel: no first line is the "file is empty" error; otherwise the header gives the
   * column names and each further line a row.
   */
  method LoadTableModel(lines: seq<string>) returns (r: Result<TableModel, LoadError>)
    ensures r == TableOf(lines)
    ensures r.Success? ==> forall i :: 0 <= i < |r.value.rows| ==> |r.value.rows[i]| == |r.value.columns|
  {
    if |lines| == 0 {
      return Failure(EmptyFile);
    }
    var columnNames := HeaderColumns(lines[0]);
    var data := DataRows(lines);
    return Success(TableModel(columnNames, JustifyRows(data, |columnNames|)));
  }

  /**
   * The header is split into an array whose parts are trimmed in place, then copied into the
   * column vector.
   */
  method HeaderColumns(header: string) returns (columnNames: seq<string>)
    ensures columnNames == Cells(header)
  {
    var parts := Split(header, ',');
    var columns := new string[|parts|](i requires 0 <= i < |parts| => parts[i]);
    assert columns[..] == parts;
    TrimInPlace(columns);
    columnNames := ColumnVector(columns);
    MapPointwise(parts, Trim, columnNames);
  }

  /** The loop that adds the column names to the vector, in array order. */
  method ColumnVector(columns: array<string>) returns (columnNames: seq<string>)
    ensures columnNames == columns[..]
  {
    columnNames := [];
    for i := 0 to columns.Length
      invariant columnNames == columns[..i]
    {
      columnNames := columnNames + [columns[i]];
    }
  }

  /** The loop that trims each column name where it lies in the array. */
  method TrimInPlace(columns: array<string>)
    modifies columns
    ensures forall j :: 0 <= j < columns.Length ==> columns[j] == Trim(old(columns[j]))
  {
    for i := 0 to columns.Length
      invariant forall j :: 0 <= j < i ==> columns[j] == Trim(old(columns[j]))
      invariant forall j :: i <= j < columns.Length ==> columns[j] == old(columns[j])
    {
      columns[i] := Trim(columns[i]);
    }
  }

  /** The loop over the lines after the header: one row each, in file order. */
  method DataRows(lines: seq<string>) returns (data: seq<seq<string>>)
    requires |lines| >= 1
    ensures data == Map(lines[1..], Cells)
  {
    data := [];
    var k := 1;
    while k < |lines|
      invariant 1 <= k <= |lines|
      invariant data == Map(lines[1..k], Cells)
    {
      var row := RowOf(lines[k]);
      data := data + [row];
      k := k + 1;
    }
  }

  /** The body of the row loop: one trimmed cell per comma-separated part, added in order. */
  method RowOf(line: string) returns (row: seq<string>)
    ensures row == Cells(line)
  {
    var parts := Split(line, ',');
    row := [];
    for j := 0 to |parts|
      invariant row == seq(j, i requires 0 <= i < j => Trim(parts[i]))
    {
      row := row + [Trim(parts[j])];
    }
  }

  /** The column names both writers' headers read back as. */
  const ReportColumns: seq<string> := ["Student ID", "Student Name", "Course Code", "Final Grade"]

  /** The cells a report row reads back as: its id, name and code, and the text of its grade. */
  function RowCells(row: ReportRow): seq<string> {
    [row.id, row.name, row.code, FormatOneDecimal(row.grade)]
  }

  /** The text cells of the rows, in order. */
  function TextRows(rows: seq<ReportRow>): seq<seq<string>> {
    Map(rows, RowCells)
  }

  /** The rows of the table, every cell present. */
  function TableRows(rows: seq<ReportRow>): seq<seq<Option<string>>> {
    Map(TextRows(rows), Filled)
  }

  /** The text fields of a row survive a comma split and a trim. */
  predicate CleanRow(row: ReportRow) {
    CleanField(row.id) && CleanField(row.name) && CleanField(row.code)
  }

  /** What printf puts after each comma: nothing in the unsorted writer, one space in the sorted one. */
  predicate Padding(pad: string) {
    pad == "" || pad == " "
  }

  lemma TrimPadded(pad: string, s: string)
    requires Padding(pad) && IsTrimmed(s)
    ensures Trim(pad + s) == s
  {
    if pad == " " {
      TrimAfterSpace(s);
    } else {
      assert pad + s == s;
    }
  }

  /** Four parts joined by commas, each but the first behind the padding. */
  lemma JoinFour(a: string, b: string, c: string, d: string, pad: string)
    ensures a + ([','] + pad) + b + ([','] + pad) + c + ([','] + pad) + d ==
            Join([a, pad + b, pad + c, pad + d], [','])
  {
    var parts := [a, pad + b, pad + c, pad + d];
    assert parts[1..][1..][1..] == [pad + d];
    assert parts[1..][1..] == [pad + c, pad + d];
    assert Join(parts[1..][1..], [',']) == pad + c + [','] + (pad + d);
    assert Join(parts[1..], [',']) == pad + b + [','] + (pad + c + [','] + (pad + d));
  }

  /** Comma-free parts joined by commas, the last one not empty, read back as the trimmed parts. */
  lemma CellsOfJoin(parts: seq<string>)
    requires |parts| >= 2
    requires forall i :: 0 <= i < |parts| ==> ',' !in parts[i]
    requires parts[|parts| - 1] != []
    ensures Cells(Join(parts, [','])) == TrimAll(parts)
  {
    SplitOfJoin(parts, ',');
  }

  /** The text of a grade holds no comma. */
  lemma GradeTextCommaFree(g: real)
    ensures ',' !in FormatOneDecimal(g)
  {
  }

  /** Four fields printed with commas and padding read back as the four fields. */
  lemma CellsOfFields(a: string, b: string, c: string, d: string, pad: string)
    requires CleanField(a) && CleanField(b) && CleanField(c) && CleanField(d)
    requires Padding(pad)
    ensures Cells(a + ([','] + pad) + b + ([','] + pad) + c + ([','] + pad) + d) == [a, b, c, d]
  {
    JoinFour(a, b, c, d, pad);
    assert ',' !in pad;
    CellsOfJoin([a, pad + b, pad + c, pad + d]);
    MapFour(Trim, a, pad + b, pad + c, pad + d);
    TrimPadded(pad, b);
    TrimPadded(pad, c);
    TrimPadded(pad, d);
  }

  lemma MapFour<A, B>(f: A -> B, x0: A, x1: A, x2: A, x3: A)
    ensures Map([x0, x1, x2, x3], f) == [f(x0), f(x1), f(x2), f(x3)]
  {
    FourElements(Map([x0, x1, x2, x3], f), f(x0), f(x1), f(x2), f(x3));
  }

  lemma FourElements<T>(s: seq<T>, a: T, b: T, c: T, d: T)
    requires |s| == 4 && s[0] == a && s[1] == b && s[2] == c && s[3] == d
    ensures s == [a, b, c, d]
  {
  }

  /** A printed row reads back as its id, name, code and grade text. */
  lemma CellsOfRow(row: ReportRow, pad: string)
    requires CleanRow(row) && Padding(pad)
    ensures Cells(FormatRow(row, [','] + pad)) == RowCells(row)
  {
    GradeTextCommaFree(row.grade);
    CellsOfFields(row.id, row.name, row.code, FormatOneDecimal(row.grade), pad);
  }

  /** A map is the sequence that holds f of each element. */
  lemma MapPointwise<A, B>(xs: seq<A>, f: A -> B, ys: seq<B>)
    requires |xs| == |ys|
    requires forall i :: 0 <= i < |xs| ==> f(xs[i]) == ys[i]
    ensures Map(xs, f) == ys
  {
  }

  /** Two maps agree when they agree element by element. */
  lemma MapEqual<A, B, C>(xs: seq<A>, f: A -> C, ys: seq<B>, g: B -> C)
    requires |xs| == |ys|
    requires forall i :: 0 <= i < |xs| ==> f(xs[i]) == g(ys[i])
    ensures Map(xs, f) == Map(ys, g)
  {
  }

  /** Printed rows read back as the rows' cells. */
  lemma RowsReadBack(rows: seq<ReportRow>, pad: string)
    requires forall r :: r in rows ==> CleanRow(r)
    requires Padding(pad)
    ensures Map(FormatLines(rows, [','] + pad), Cells) == TextRows(rows)
  {
    var lines := FormatLines(rows, [','] + pad);
    forall i | 0 <= i < |lines|
      ensures Cells(lines[i]) == RowCells(rows[i])
    {
      CellsOfRow(rows[i], pad);
    }
    MapEqual(lines, Cells, rows, RowCells);
  }

  /**
   * A header line of four cells and printed rows read back as the header's cells and the rows'
   * cells, all present: the rows have the header's width, so justifying them changes nothing.
   */
  lemma TableOfPrinted(head: string, rows: seq<ReportRow>, pad: string)
    requires forall r :: r in rows ==> CleanRow(r)
    requires Padding(pad)
    requires |Cells(head)| == 4
    ensures TableOf([head] + FormatLines(rows, [','] + pad)) == Success(TableModel(Cells(head), TableRows(rows)))
  {
    var text := FormatLines(rows, [','] + pad);
    TableOfLines(head, text);
    RowsReadBack(rows, pad);
    TextRowsWidth(rows);
    JustifyRowsFit(TextRows(rows), 4);
  }

  /** A header followed by further lines: the header's cells, then the lines' cells justified. */
  lemma TableOfLines(head: string, text: seq<string>)
    ensures TableOf([head] + text) == Success(TableModel(Cells(head), JustifyRows(Map(text, Cells), |Cells(head)|)))
  {
    assert ([head] + text)[1..] == text;
  }

  /** Every report row has four cells. */
  lemma TextRowsWidth(rows: seq<ReportRow>)
    ensures forall i :: 0 <= i < |TextRows(rows)| ==> |TextRows(rows)[i]| == 4
  {
    forall i | 0 <= i < |TextRows(rows)|
      ensures |TextRows(rows)[i]| == 4
    {
      assert TextRows(rows)[i] == RowCells(rows[i]);
    }
  }

  /** Both headers read back as the four column names. */
  lemma HeaderCells()
    ensures Cells(Header) == ReportColumns
    ensures Cells(PlainHeader) == ReportColumns
  {
    var id, name, code, grade := "Student ID", "Student Name", "Course Code", "Final Grade";
    assert CleanField(id) && CleanField(name) && CleanField(code) && CleanField(grade);
    assert ", " == [','] + " " && "," == [','] + "";
    CellsOfFields(id, name, code, grade, " ");
    CellsOfFields(id, name, code, grade, "");
  }

  /** The rows printed for the students of a well-formed map have clean text fields. */
  lemma {:induction false} RowsClean(roster: Roster, ids: seq<string>)
    requires forall id :: id in ids ==> id in roster
    requires WellFormed(roster)
    ensures forall r :: r in RowsOf(roster, ids) ==> CleanRow(r)
  {
    if ids != [] {
      RowsClean(roster, ids[..|ids| - 1]);
      var s := roster[ids[|ids| - 1]];
      assert forall i :: 0 <= i < |s.courses| ==> CleanField(s.courses[i].code) by {
        assert forall i :: 0 <= i < |s.courses| ==> s.courses[i] in s.courses;
      }
    }
  }

  /** Every grade cell parses back to the grade printed, which lies in [0, 100]. */
  lemma GradesParseBack(roster: Roster, ids: seq<string>)
    requires forall id :: id in ids ==> id in roster
    requires WellFormed(roster)
    ensures forall r :: r in RowsOf(roster, ids) ==>
              InRange(r.grade) && ParseDouble(RowCells(r)[3]) == Some(r.grade)
  {
    RowsOfGrades(roster, ids);
    forall r | r in RowsOf(roster, ids)
      ensures ParseDouble(RowCells(r)[3]) == Some(r.grade)
    {
      FormatParseRoundTrip(r.grade);
    }
  }

  /**
   * Reading back what writeOutputFile wrote from a well-formed map gives the four column names,
   * then for every printed row, in the order printed, its id, name and code unchanged and a grade
   * text that parses back to its grade.
   */
  lemma ReportReadsBack(roster: Roster)
    requires WellFormed(roster)
    ensures TableOf(Report(roster)) == Success(TableModel(ReportColumns, TableRows(ReportRows(roster))))
    ensures forall r :: r in ReportRows(roster) ==> ParseDouble(RowCells(r)[3]) == Some(r.grade)
  {
    var ids := SortedIds(roster.Keys);
    RowsClean(roster, ids);
    GradesParseBack(roster, ids);
    HeaderCells();
    TableOfPrinted(Header, ReportRows(roster), " ");
    assert ", " == [','] + " ";
  }

  /** The same for the unsorted writer, whatever order the map handed out its students in. */
  lemma UnorderedReportReadsBack(roster: Roster, ids: seq<string>)
    requires WellFormed(roster)
    requires IsEnumeration(ids, roster.Keys)
    ensures TableOf(UnorderedReport(roster, ids)) == Success(TableModel(ReportColumns, TableRows(RowsOf(roster, ids))))
    ensures forall r :: r in RowsOf(roster, ids) ==> ParseDouble(RowCells(r)[3]) == Some(r.grade)
  {
    RowsClean(roster, ids);
    GradesParseBack(roster, ids);
    HeaderCells();
    TableOfPrinted(PlainHeader, RowsOf(roster, ids), "");
    assert "," == [','] + "";
  }
}
