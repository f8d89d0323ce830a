/** The stand-alone report writer: a table string that grows by a title, by rows built
    from the seven results of one routine, and by separator lines. Its cells are
    aligned by `fmt`, whose centring leaves the odd space on the right. */
module ComparisonTable {
  import opened Outcomes
  import opened Text
  import opened Layout
  import AlgorithmBase
  import Centering

  /** `test_results_t`: the name, the input size and test count (`std::int64_t`, taken here
      as non-negative, the only values the harness reports), the
      comparison and assignment counts (`std::uint64_t`), and the median and average
      times in microseconds. */
  datatype TestResults = TestResults(algorithmName: string, inputSize: nat, testCount: nat,
                                     comparison: nat, assignment: nat,
                                     medianTime: nat, avgTime: nat)

  /** `column`: the string must leave room for a space on each side; then it is
      left-aligned after one space, right-aligned before one space, or centred with
      half the free space, rounded down, on the left. */
  function Column(str: string, width: int, manip: Format): (r: Result<string>)
    ensures r.Err? <==> |str| + 2 > width
    ensures r.Err? ==> r.error == RuntimeError(TableExceeded)
    ensures r.Ok? ==> |r.value| == width
  {
    if |str| + 2 > width then Err(RuntimeError(TableExceeded))
    else
      match manip
      case Left => Ok(PadRight(" " + str, width))
      case Centered =>
        var free := width - |str|;
        Ok(Spaces(free / 2) + str + Spaces(free - free / 2))
      case Right => Ok(PadLeft(str + " ", width))
  }

  /** Where the string starts in its cell. */
  function Offset(str: string, width: int, manip: Format): int {
    match manip
    case Left => 1
    case Centered => (width - |str|) / 2
    case Right => width - |str| - 1
  }

  /** A cell holds the string at its offset, with at least one space on either side and
      nothing but spaces around it; a centred string has at most one more space on its
      right than on its left. */
  lemma ColumnContents(str: string, width: int, manip: Format)
    requires |str| + 2 <= width
    ensures var r := Column(str, width, manip).value;
      var o := Offset(str, width, manip);
      1 <= o && o + |str| + 1 <= width && r[o..o + |str|] == str
      && (forall k :: 0 <= k < o ==> r[k] == ' ')
      && (forall k :: o + |str| <= k < width ==> r[k] == ' ')
    ensures manip == Centered ==>
      var o := Offset(str, width, manip);
      o <= width - |str| - o <= o + 1
  {
    var r := Column(str, width, manip).value;
    var o := Offset(str, width, manip);
    match manip
    case Left =>
      assert r == [' '] + str + Spaces(width - |str| - 1);
      assert r[1..1 + |str|] == str;
    case Centered =>
      var free := width - |str|;
      assert r == Spaces(free / 2) + str + Spaces(free - free / 2);
      assert r[o..o + |str|] == str;
    case Right =>
      assert r == Spaces(width - |str| - 1) + str + [' '];
      assert r[width - |str| - 1..width - 1] == str;
  }

  /** The two report writers lay their cells out alike, except that a centred string
      with an odd amount of free space gets the extra space on the left from the
      harness's `center` and on the right from `fmt`. */
  lemma ColumnAgreesWithHarness(str: string, column: nat, manip: Format)
    requires column < 7 && |str| + 2 <= ColumnWidths[column]
    requires manip != Centered || (ColumnWidths[column] - |str|) % 2 == 0
    ensures Column(str, ColumnWidths[column], manip) == AlgorithmBase.TableColumn(str, column, manip)
  {
    var w := ColumnWidths[column];
    assert AlgorithmBase.TableColumnsWidth[column] == w;
    if manip == Centered {
      var c := Centering.FromString(w, str);
      Centering.WriteLayout(c);
      assert Centering.LeftPad(c) == Centering.RightPad(c) == (w - |str|) / 2;
    }
  }

  /** With an odd amount of free space the two centred cells differ, unless the string
      is all spaces: the harness's copy of the string sits one place further right. */
  lemma ColumnDiffersFromHarness(str: string, column: nat, k: nat)
    requires column < 7 && |str| + 2 <= ColumnWidths[column]
    requires (ColumnWidths[column] - |str|) % 2 == 1 && k < |str| && str[k] != ' '
    ensures Column(str, ColumnWidths[column], Centered)
            != AlgorithmBase.TableColumn(str, column, Centered)
  {
    var w := ColumnWidths[column];
    assert AlgorithmBase.TableColumnsWidth[column] == w;
    var r := Column(str, w, Centered).value;
    var h := AlgorithmBase.TableColumn(str, column, Centered).value;
    ColumnContents(str, w, Centered);
    AlgorithmBase.TableColumnContents(str, column, Centered);
    var o := Offset(str, w, Centered);
    assert AlgorithmBase.CellOffset(str, w, Centered) == o + 1;
    if r == h {
      ShiftedSpaces(str, r, o, k);
    }
  }

  /** A string that occurs in a cell both at o and at o + 1, followed by a space at its
      first occurrence, is all spaces. */
  lemma {:induction false} ShiftedSpaces(str: string, r: string, o: nat, k: nat)
    requires o + |str| + 1 <= |r| && k < |str|
    requires r[o..o + |str|] == str && r[o + 1..o + 1 + |str|] == str && r[o + |str|] == ' '
    ensures str[k] == ' '
    decreases |str| - k
  {
    assert r[o + 1..o + 1 + |str|][k] == str[k];
    if k + 1 < |str| {
      ShiftedSpaces(str, r, o, k + 1);
      assert r[o..o + |str|][k + 1] == str[k + 1];
    }
  }

  /** Every string leaves a space on both sides within its column. */
  predicate Fit(strs: seq<string>) {
    |strs| == 7 && forall k :: 0 <= k < 7 ==> |strs[k]| + 2 <= ColumnWidths[k]
  }

  /** A centred cell of column k whose string is known to fit. */
  function CenteredCell(str: string, k: nat): (r: string)
    requires k < 7 && |str| + 2 <= ColumnWidths[k]
    ensures |r| == ColumnWidths[k]
  {
    Column(str, ColumnWidths[k], Centered).value
  }

  /** The row `add_title` appends after its separator line: every title centred. */
  function TitleRow(titles: seq<string>): (r: string)
    requires Fit(titles)
    ensures |r| == LineLength
  {
    RowLine(CenteredCell(titles[0], 0), CenteredCell(titles[1], 1), CenteredCell(titles[2], 2),
            CenteredCell(titles[3], 3), CenteredCell(titles[4], 4), CenteredCell(titles[5], 5),
            CenteredCell(titles[6], 6))
  }

  /** The strings of the cells of `add_row`, left to right. */
  function RowStrings(results: TestResults): (strs: seq<string>)
    ensures |strs| == 7 && strs[0] == results.algorithmName
    ensures strs[1] == Grouped(IntToString(results.inputSize))
    ensures strs[2] == Grouped(IntToString(results.testCount))
    ensures Unquote(strs[1]) == IntToString(results.inputSize)
    ensures Unquote(strs[2]) == IntToString(results.testCount)
    ensures Unquote(strs[3]) == NatToString(results.comparison)
    ensures Unquote(strs[4]) == NatToString(results.assignment)
    ensures |strs[5]| >= 20 && |strs[6]| >= 20
  {
    ReadableNumberProperties(results.inputSize);
    ReadableNumberProperties(results.testCount);
    ReadableNumberProperties(results.comparison);
    ReadableNumberProperties(results.assignment);
    [results.algorithmName, ReadableNumber(results.inputSize), ReadableNumber(results.testCount),
     ReadableNumber(results.comparison), ReadableNumber(results.assignment),
     DurationText(results.medianTime), DurationText(results.avgTime)]
  }

  /** How `add_row` aligns column k: the name and the durations centred, the numbers
      right-aligned. */
  function RowFormat(k: nat): Format {
    if k == 0 || k >= 5 then Centered else Right
  }

  /** The row of `add_row` after its separator line. Whichever cell does not fit, the
      same exception is thrown, so the order in which C++ evaluates the cells does not
      matter. */
  function RowCells(results: TestResults): (r: Result<string>)
    ensures r.Err? ==> r.error == RuntimeError(TableExceeded)
  {
    Cells(RowStrings(results))
  }

  function Cells(strs: seq<string>): (r: Result<string>)
    requires |strs| == 7
    ensures r.Err? ==> r.error == RuntimeError(TableExceeded)
    ensures r.Ok? ==> |r.value| == LineLength
  {
    var c0 := Column(strs[0], ColumnWidths[0], RowFormat(0));
    var c1 := Column(strs[1], ColumnWidths[1], RowFormat(1));
    var c2 := Column(strs[2], ColumnWidths[2], RowFormat(2));
    var c3 := Column(strs[3], ColumnWidths[3], RowFormat(3));
    var c4 := Column(strs[4], ColumnWidths[4], RowFormat(4));
    var c5 := Column(strs[5], ColumnWidths[5], RowFormat(5));
    var c6 := Column(strs[6], ColumnWidths[6], RowFormat(6));
    if c0.Err? || c1.Err? || c2.Err? || c3.Err? || c4.Err? || c5.Err? || c6.Err? then
      Err(RuntimeError(TableExceeded))
    else
      Ok(RowLine(c0.value, c1.value, c2.value, c3.value, c4.value, c5.value, c6.value))
  }

  /** Seven cells are written exactly when each string leaves a space on both sides
      within its column, and are then one table line long. */
  lemma CellsFit(strs: seq<string>)
    requires |strs| == 7
    ensures Cells(strs).Ok? <==> Fit(strs)
    ensures Cells(strs).Ok? ==> |Cells(strs).value| == LineLength
  {
    if Cells(strs).Ok? {
      forall k | 0 <= k < 7 ensures |strs[k]| + 2 <= ColumnWidths[k] {
        assert Column(strs[k], ColumnWidths[k], RowFormat(k)).Ok?;
      }
    }
  }

  /** A row is written exactly when each of its strings leaves a space on both sides
      within its column, and is then one table line long. */
  lemma RowCellsFit(results: TestResults)
    ensures RowCells(results).Ok? <==> Fit(RowStrings(results))
    ensures RowCells(results).Ok? ==> |RowCells(results).value| == LineLength
  {
    CellsFit(RowStrings(results));
  }

  /** `algorithm_comparison_table`: the table string, appended to only. */
  class Table {
    var table: string

    /** The table is a whole number of lines. */
    predicate Valid()
      reads this
    {
      |table| % LineLength == 0
    }

    /** The defaulted constructor: an empty table. */
    constructor()
      ensures table == "" && Valid()
    {
      table := "";
    }

    /** `add_table_seperator_line`: a '+' line. */
    method AddTableSeparatorLine()
      modifies this
      ensures table == old(table) + HorizontalLine('+')
      ensures old(Valid()) ==> Valid()
    {
      OneMoreLine(table, HorizontalLine('+'));
      table := table + HorizontalLine('+');
    }

    /** `add_row_seperator_line`: a '|' line. */
    method AddRowSeparatorLine()
      modifies this
      ensures table == old(table) + HorizontalLine('|')
      ensures old(Valid()) ==> Valid()
    {
      OneMoreLine(table, HorizontalLine('|'));
      table := table + HorizontalLine('|');
    }

    /** `add_title`: a '+' line, then the row of centred column titles. */
    method AddTitle()
      modifies this
      ensures table == old(table) + HorizontalLine('+') + TitleRow(AlgorithmBase.Titles)
      ensures old(Valid()) ==> Valid()
    {
      AddTableSeparatorLine();
      OneMoreLine(table, TitleRow(AlgorithmBase.Titles));
      table := table + TitleRow(AlgorithmBase.Titles);
    }

    /** `add_row`: a '|' line, then the row of the results. When a cell does not fit,
        the exception leaves the '|' line in the table and nothing after it. */
    method AddRow(results: TestResults) returns (o: Outcome)
      modifies this
      ensures RowCells(results).Ok? ==>
        o == Pass && table == old(table) + HorizontalLine('|') + RowCells(results).value
      ensures RowCells(results).Err? ==>
        o == Fail(RuntimeError(TableExceeded)) && table == old(table) + HorizontalLine('|')
      ensures old(Valid()) ==> Valid()
    {
      AddRowSeparatorLine();
      var row := RowCells(results);
      RowCellsFit(results);
      if row.Ok? {
        OneMoreLine(table, row.value);
        table := table + row.value;
        o := Pass;
      } else {
        o := Fail(row.error);
      }
    }
  }

  /** Appending one table line keeps the table a whole number of lines. */
  lemma OneMoreLine(t: string, line: string)
    requires |line| == LineLength
    ensures |t + line| % LineLength == |t| % LineLength
  {}

  /** The fourth cell of a row of full-width cells. */
  lemma RowLineCell3(c0: string, c1: string, c2: string, c3: string, c4: string, c5: string,
                     c6: string)
    requires |c0| == 13 && |c1| == 16 && |c2| == 14 && |c3| == 21
    ensures RowLine(c0, c1, c2, c3, c4, c5, c6)[47..68] == c3
  {
    var p := "|" + c0 + "|" + c1 + "|" + c2 + "|";
    assert RowLine(c0, c1, c2, c3, c4, c5, c6) == p + c3 + ("|" + c4 + "|" + c5 + "|" + c6 + "|\n");
  }

  /** The two report writers do not write the same title: "# of comparisons" leaves an
      odd five spaces in its column of 21. */
  lemma TitlesDiffer()
    ensures TitleRow(AlgorithmBase.Titles) != AlgorithmBase.TitleRow(AlgorithmBase.Titles)
  {
    var t := AlgorithmBase.Titles;
    assert |t[3]| == 16 && t[3][0] == '#';
    TitleRowsDiffer(t);
  }

  /** Title rows differ once the fourth title, not starting with a space, leaves an odd
      number of spaces in its column. */
  lemma TitleRowsDiffer(t: seq<string>)
    requires Fit(t) && AlgorithmBase.TitlesFit(t)
    requires (ColumnWidths[3] - |t[3]|) % 2 == 1 && |t[3]| > 0 && t[3][0] != ' '
    ensures TitleRow(t) != AlgorithmBase.TitleRow(t)
  {
    RowLineCell3(CenteredCell(t[0], 0), CenteredCell(t[1], 1), CenteredCell(t[2], 2),
                 CenteredCell(t[3], 3), CenteredCell(t[4], 4), CenteredCell(t[5], 5),
                 CenteredCell(t[6], 6));
    RowLineCell3(AlgorithmBase.TitleCell(t[0], 0), AlgorithmBase.TitleCell(t[1], 1),
                 AlgorithmBase.TitleCell(t[2], 2), AlgorithmBase.TitleCell(t[3], 3),
                 AlgorithmBase.TitleCell(t[4], 4), AlgorithmBase.TitleCell(t[5], 5),
                 AlgorithmBase.TitleCell(t[6], 6));
    ColumnDiffersFromHarness(t[3], 3, 0);
  }

  /** For the counts the harness reports, both writers accept exactly the same rows. */
  lemma SameRowsFit(name: string, inputSize: nat, testCount: nat, comparison: nat,
                    assignment: nat, median: nat, average: nat)
    ensures RowCells(TestResults(name, inputSize, testCount, comparison, assignment, median, average)).Ok?
        <==> AlgorithmBase.RowText(name, inputSize, testCount, comparison, assignment, median, average).Ok?
  {
    RowCellsFit(TestResults(name, inputSize, testCount, comparison, assignment, median, average));
    AlgorithmBase.ResultRowFits(name, ReadableNumber(inputSize), ReadableNumber(testCount),
                                ReadableNumber(comparison), ReadableNumber(assignment),
                                DurationText(median), DurationText(average));
  }
}
