/** The benchmark harness: the input vector with its size and test count, the checks
    every constructor and setter makes, the fixed-width report table, and the
    measurement loop that runs a routine on fresh copies of the input and reduces the
    trial durations to a median and a mean. */
module AlgorithmBase {
  import opened Outcomes
  import opened Text
  import opened Centering
  import opened Layout
  import opened Stats
  import opened Sorting
  import Order

  const DefaultTestCount := 21
  const DefaultInputSize := 5000

  /** `table_columns_width`: the seven table columns, then the widths of the minutes,
      seconds, milliseconds and microseconds fields of a duration. */
  const TableColumnsWidth: seq<nat> := [13, 16, 14, 21, 21, 25, 25, 3, 2, 3, 3]

  const InputSizeMessage := "input size cannot be zero or negative"
  const TestCountMessage := "test count cannot be zero or negative"

  /** `check_argumants`: the input size is checked first, then the test count. */
  function CheckArguments(testCount: int, inputSize: int): (o: Outcome)
    ensures o.Pass? <==> inputSize > 0 && testCount > 0
    ensures inputSize <= 0 ==> o == Fail(RuntimeError(InputSizeMessage))
    ensures inputSize > 0 && testCount <= 0 ==> o == Fail(RuntimeError(TestCountMessage))
  {
    if inputSize <= 0 then Fail(RuntimeError(InputSizeMessage))
    else if testCount <= 0 then Fail(RuntimeError(TestCountMessage))
    else Pass
  }

  /** `table_column`: a cell of column `column`; it must leave room for a space on each
      side of the string, and then is exactly as wide as the column. */
  function TableColumn(str: string, column: nat, manip: Format): (r: Result<string>)
    requires column < |TableColumnsWidth|
    ensures r.Err? <==> |str| + 2 > TableColumnsWidth[column]
    ensures r.Err? ==> r.error == RuntimeError(TableExceeded)
    ensures r.Ok? ==> |r.value| == TableColumnsWidth[column]
  {
    var w := TableColumnsWidth[column];
    if |str| + 2 > w then Err(RuntimeError(TableExceeded))
    else
      match manip
      case Left => Ok(PadRight(" " + str, w))
      case Centered =>
        WriteLayout(FromString(w, str));
        Write(FromString(w, str))
      case Right => Ok(PadLeft(str + " ", w))
  }

  /** Where the string starts in its cell. */
  function CellOffset(str: string, width: int, manip: Format): int {
    match manip
    case Left => 1
    case Centered => LeftPad(FromString(width, str))
    case Right => width - |str| - 1
  }

  /** A cell holds the string at its offset, with at least one space on either side and
      nothing but spaces around it. */
  lemma TableColumnContents(str: string, column: nat, manip: Format)
    requires column < |TableColumnsWidth| && |str| + 2 <= TableColumnsWidth[column]
    ensures var w := TableColumnsWidth[column];
      var r := TableColumn(str, column, manip).value;
      var o := CellOffset(str, w, manip);
      1 <= o && o + |str| + 1 <= w && r[o..o + |str|] == str
      && (forall k :: 0 <= k < o ==> r[k] == ' ')
      && (forall k :: o + |str| <= k < w ==> r[k] == ' ')
  {
    var w := TableColumnsWidth[column];
    var r := TableColumn(str, column, manip).value;
    match manip
    case Left =>
      assert r == [' '] + str + Spaces(w - |str| - 1);
      assert r[1..1 + |str|] == str;
    case Centered =>
      WriteLayout(FromString(w, str));
      WriteKeepsString(FromString(w, str));
    case Right =>
      assert r == Spaces(w - |str| - 1) + str + [' '];
      assert r[w - |str| - 1..w - 1] == str;
  }

  /** The column titles of `table_title`, left to right. */
  const Titles: seq<string> := ["algorithm", "input size", "# of tests", "# of comparisons",
                                "# of assignments", "median time(~)", "average time(~)"]

  /** Every title leaves a space on both sides within its column. */
  predicate TitlesFit(titles: seq<string>) {
    |titles| == 7 && forall k :: 0 <= k < 7 ==> |titles[k]| + 2 <= TableColumnsWidth[k]
  }

  /** The seven titles of `table_title` fit their columns. */
  lemma TitlesFitColumns()
    ensures TitlesFit(Titles)
  {
    assert |Titles[0]| == 9 && |Titles[1]| == 10 && |Titles[2]| == 10 && |Titles[3]| == 16;
    assert |Titles[4]| == 16 && |Titles[5]| == 14 && |Titles[6]| == 15;
  }

  /** `table_title`: a '+' line, then the row of column titles, all centred. Every
      title fits its column, so this never throws. */
  function TableTitle(): (r: string)
    ensures |r| == 2 * LineLength && r[..LineLength] == HorizontalLine('+')
  {
    TitlesFitColumns();
    var line, titles := HorizontalLine('+'), TitleRow(Titles);
    assert (line + titles)[..|line|] == line;
    line + titles
  }

  /** The row of centred titles. */
  function TitleRow(titles: seq<string>): (r: string)
    requires TitlesFit(titles)
    ensures |r| == LineLength
  {
    RowLine(TitleCell(titles[0], 0), TitleCell(titles[1], 1), TitleCell(titles[2], 2),
            TitleCell(titles[3], 3), TitleCell(titles[4], 4), TitleCell(titles[5], 5),
            TitleCell(titles[6], 6))
  }

  /** A centred cell whose string is known to fit. */
  function TitleCell(str: string, column: nat): (r: string)
    requires column < |TableColumnsWidth| && |str| + 2 <= TableColumnsWidth[column]
    ensures |r| == TableColumnsWidth[column]
  {
    TableColumn(str, column, Centered).value
  }

  /** The row of `table_row` from its seven cell strings: a '|' line, then the name
      centred, the four counts right-aligned and the two durations centred. The cells
      are built left to right and the first that does not fit throws. */
  function ResultRow(s0: string, s1: string, s2: string, s3: string, s4: string, s5: string,
                     s6: string): (r: Result<string>)
    ensures r.Err? ==> r.error == RuntimeError(TableExceeded)
    ensures r.Ok? ==> |r.value| == 2 * LineLength && r.value[..LineLength] == HorizontalLine('|')
  {
    var c0 := TableColumn(s0, 0, Centered);
    var c1 := TableColumn(s1, 1, Right);
    var c2 := TableColumn(s2, 2, Right);
    var c3 := TableColumn(s3, 3, Right);
    var c4 := TableColumn(s4, 4, Right);
    var c5 := TableColumn(s5, 5, Centered);
    var c6 := TableColumn(s6, 6, Centered);
    if c0.Err? then Err(c0.error) else if c1.Err? then Err(c1.error)
    else if c2.Err? then Err(c2.error) else if c3.Err? then Err(c3.error)
    else if c4.Err? then Err(c4.error) else if c5.Err? then Err(c5.error)
    else if c6.Err? then Err(c6.error)
    else Ok(HorizontalLine('|') + RowLine(c0.value, c1.value, c2.value, c3.value, c4.value, c5.value, c6.value))
  }

  /** A row is written exactly when every string leaves a space on both sides within its
      column; otherwise the table-size message is thrown. */
  lemma ResultRowFits(s0: string, s1: string, s2: string, s3: string, s4: string, s5: string,
                      s6: string)
    ensures var r := ResultRow(s0, s1, s2, s3, s4, s5, s6);
      (r.Ok? <==> |s0| <= 11 && |s1| <= 14 && |s2| <= 12 && |s3| <= 19 && |s4| <= 19
                  && |s5| <= 23 && |s6| <= 23)
      && (r.Err? ==> r.error == RuntimeError(TableExceeded))
  {
    assert TableColumn(s0, 0, Centered).Ok? <==> |s0| <= 11;
    assert TableColumn(s1, 1, Right).Ok? <==> |s1| <= 14;
    assert TableColumn(s2, 2, Right).Ok? <==> |s2| <= 12;
    assert TableColumn(s3, 3, Right).Ok? <==> |s3| <= 19;
    assert TableColumn(s4, 4, Right).Ok? <==> |s4| <= 19;
    assert TableColumn(s5, 5, Centered).Ok? <==> |s5| <= 23;
    assert TableColumn(s6, 6, Centered).Ok? <==> |s6| <= 23;
  }

  /** `table_row` once the results are known. */
  function RowText(name: string, inputSize: nat, testCount: nat, comparison: nat,
                   assignment: nat, median: nat, average: nat): (r: Result<string>)
    ensures r.Ok? <==>
      |name| <= 11 && |ReadableNumber(inputSize)| <= 14 && |ReadableNumber(testCount)| <= 12
      && |ReadableNumber(comparison)| <= 19 && |ReadableNumber(assignment)| <= 19
      && |DurationText(median)| <= 23 && |DurationText(average)| <= 23
    ensures r.Err? ==> r.error == RuntimeError(TableExceeded)
  {
    ResultRowFits(name, ReadableNumber(inputSize), ReadableNumber(testCount),
                  ReadableNumber(comparison), ReadableNumber(assignment),
                  DurationText(median), DurationText(average));
    ResultRow(name, ReadableNumber(inputSize), ReadableNumber(testCount),
              ReadableNumber(comparison), ReadableNumber(assignment),
              DurationText(median), DurationText(average))
  }

  /** The durations of the first n trials of routine x, in the order they were
      measured; `elapsed(x, i)` is what the clock gives for trial i of x. */
  function Trials(x: Algorithm, n: nat, elapsed: (Algorithm, nat) -> nat): (t: seq<int>)
    ensures |t| == n && forall k :: 0 <= k < n ==> t[k] == elapsed(x, k)
  {
    if n == 0 then [] else Trials(x, n - 1, elapsed) + [elapsed(x, n - 1)]
  }

  /** The median and the mean of measured durations are durations too. */
  lemma SummariesNonNegative(x: Algorithm, n: nat, elapsed: (Algorithm, nat) -> nat)
    requires n > 0
    ensures Median(Trials(x, n, elapsed)) >= 0 && Mean(Trials(x, n, elapsed)) >= 0
  {
    var t := Trials(x, n, elapsed);
    SumNonNegative(t);
    MeanNonNegative(t);
    var m := Median(t);
    assert m in t;
  }

  /** The median trial duration of routine x, as a duration. */
  function MedianTime(x: Algorithm, n: nat, elapsed: (Algorithm, nat) -> nat): nat
    requires n > 0
  {
    SummariesNonNegative(x, n, elapsed);
    Median(Trials(x, n, elapsed))
  }

  /** The mean trial duration of routine x, as a duration. */
  function AverageTime(x: Algorithm, n: nat, elapsed: (Algorithm, nat) -> nat): nat
    requires n > 0
  {
    SummariesNonNegative(x, n, elapsed);
    Mean(Trials(x, n, elapsed))
  }

  /** The inputs of `n` calls of the random generator. */
  function Generated(n: nat, random: nat -> int): (v: seq<int>)
    ensures |v| == n && forall k :: 0 <= k < n ==> v[k] == random(k)
  {
    if n == 0 then [] else Generated(n - 1, random) + [random(n - 1)]
  }

  /** `algorithm_base`: the input, the test count, the input size, and the duration
      buffer `perform_test` fills and empties on every call. */
  class Harness {
    var vec: seq<int>
    var testCount: int
    var inputSize: int
    var timeVec: seq<int>

    /** What every constructor and setter keeps, whether its check passes or not: the
        size is the length of the input and the duration buffer is empty. */
    ghost predicate Valid()
      reads this
    {
      inputSize == |vec| && timeVec == []
    }

    /** The member initialisation of the container constructor, before its check. */
    constructor (c: seq<int>, testCount: int)
      ensures vec == c && this.testCount == testCount && inputSize == |c| && timeVec == []
      ensures Valid()
    {
      vec := c;
      this.testCount := testCount;
      inputSize := |c|;
      timeVec := [];
    }

    /** The container constructor: copy, then check; a failed check leaves no object. */
    static method FromContainer(c: seq<int>, testCount: int) returns (r: Result<Harness>)
      ensures r.Err? <==> CheckArguments(testCount, |c|).Fail?
      ensures r.Err? ==> r.error == CheckArguments(testCount, |c|).error
      ensures r.Ok? ==>
        fresh(r.value) && r.value.Valid() && r.value.vec == c
        && r.value.testCount == testCount && r.value.inputSize > 0 && r.value.testCount > 0
    {
      var h := new Harness(c, testCount);
      var o := CheckArguments(h.testCount, h.inputSize);
      if o.Fail? {
        r := Err(o.error);
      } else {
        r := Ok(h);
      }
    }

    /** The size constructor: check, then fill the input from the random generator. */
    static method FromSize(inputSize: int, testCount: int, random: nat -> int)
      returns (r: Result<Harness>)
      ensures r.Err? <==> CheckArguments(testCount, inputSize).Fail?
      ensures r.Err? ==> r.error == CheckArguments(testCount, inputSize).error
      ensures r.Ok? ==>
        fresh(r.value) && r.value.Valid() && r.value.inputSize == inputSize
        && r.value.testCount == testCount && inputSize > 0 && testCount > 0
        && r.value.vec == Generated(inputSize, random)
    {
      var o := CheckArguments(testCount, inputSize);
      if o.Fail? {
        r := Err(o.error);
      } else {
        var h := new Harness(Generated(inputSize, random), testCount);
        r := Ok(h);
      }
    }

    /** The default constructor: 5000 random inputs, 21 tests. */
    static method Default(random: nat -> int) returns (r: Result<Harness>)
      ensures r.Ok? && fresh(r.value) && r.value.Valid()
      ensures r.value.inputSize == DefaultInputSize && r.value.testCount == DefaultTestCount
      ensures r.value.vec == Generated(DefaultInputSize, random)
    {
      r := FromSize(DefaultInputSize, DefaultTestCount, random);
    }

    /** `set_test_count`: assign, then check. */
    method SetTestCount(testCount: int) returns (o: Outcome)
      requires Valid()
      modifies this
      ensures Valid() && this.testCount == testCount
      ensures vec == old(vec) && inputSize == old(inputSize)
      ensures o == CheckArguments(testCount, inputSize)
    {
      this.testCount := testCount;
      o := CheckArguments(this.testCount, inputSize);
    }

    /** `set(container, test_count)`: assign everything, then check; a failed check
        leaves the new values in place. */
    method SetContainer(c: seq<int>, testCount: int) returns (o: Outcome)
      requires Valid()
      modifies this
      ensures Valid() && vec == c && this.testCount == testCount && inputSize == |c|
      ensures o == CheckArguments(testCount, |c|)
    {
      this.testCount := testCount;
      vec := c;
      inputSize := |vec|;
      o := CheckArguments(this.testCount, inputSize);
    }

    /** `operator=`: `set` with the default test count. */
    method Assign(c: seq<int>) returns (o: Outcome)
      requires Valid()
      modifies this
      ensures Valid() && vec == c && testCount == DefaultTestCount && inputSize == |c|
      ensures o == CheckArguments(DefaultTestCount, |c|)
    {
      o := SetContainer(c, DefaultTestCount);
    }

    /** `set(input_size, test_count)`: check first; a failed check changes nothing,
        otherwise the input is refilled from the random generator. */
    method SetSize(inputSize: int, testCount: int, random: nat -> int) returns (o: Outcome)
      requires Valid()
      modifies this
      ensures Valid() && o == CheckArguments(testCount, inputSize)
      ensures o.Fail? ==>
        vec == old(vec) && this.inputSize == old(this.inputSize)
        && this.testCount == old(this.testCount)
      ensures o.Pass? ==>
        vec == Generated(inputSize, random)
        && this.inputSize == inputSize && this.testCount == testCount
    {
      o := CheckArguments(testCount, inputSize);
      if o.Pass? {
        vec := [];
        this.inputSize := inputSize;
        this.testCount := testCount;
        vec := Generated(this.inputSize, random);
      }
    }

    /** `perform_test`: run the routine `testCount` times, each time on a fresh copy of
        the input, pushing each trial's duration (`elapsed(x, i)`, the clock reading
        the model takes as given); then sort the durations, take the one at index
        `testCount / 2` and the truncated mean, empty the buffer and divide both counters
        by the test count. Only the buffer changes. */
    method PerformTest(x: Algorithm, elapsed: (Algorithm, nat) -> nat)
      returns (comparison: nat, assignment: nat, median: nat, average: nat,
               ghost totalComparison: nat, ghost totalAssignment: nat)
      requires Valid() && testCount > 0
      modifies this`timeVec
      ensures Valid()
      ensures median == Median(Trials(x, testCount, elapsed))
      ensures average == Mean(Trials(x, testCount, elapsed))
      ensures comparison == Share(totalComparison, testCount) && assignment == Share(totalAssignment, testCount)
      ensures Exact(x) ==>
        totalComparison == testCount * ComparisonDelta(x, vec)
        && totalAssignment == testCount * AssignmentDelta(x, vec)
        && comparison == ComparisonDelta(x, vec) && assignment == AssignmentDelta(x, vec)
    {
      var c, a := Measure(x, elapsed);
      median, average := Summarise(x, elapsed);
      totalComparison, totalAssignment := c, a;
      comparison, assignment := Share(c, testCount), Share(a, testCount);
      SharesBack(x, vec, testCount, c, a);
    }

    /** The measurement loop of `perform_test`: both counters start at zero, and each of
        the `testCount` trials sorts a fresh copy of the input and pushes its duration. */
    method Measure(x: Algorithm, elapsed: (Algorithm, nat) -> nat) returns (c: nat, a: nat)
      requires Valid() && testCount > 0
      modifies this`timeVec
      ensures timeVec == Trials(x, testCount, elapsed)
      ensures Exact(x) ==> c == testCount * ComparisonDelta(x, vec) && a == testCount * AssignmentDelta(x, vec)
    {
      c, a := 0, 0;
      var i := 0;
      while i < testCount
        invariant 0 <= i <= testCount && timeVec == Trials(x, i, elapsed)
        invariant Exact(x) ==> c == i * ComparisonDelta(x, vec) && a == i * AssignmentDelta(x, vec)
      {
        ghost var c0, a0 := c, a;
        c, a := Trial(x, vec, c, a);
        if Exact(x) {
          OneMoreShare(i, ComparisonDelta(x, vec), c0);
          OneMoreShare(i, AssignmentDelta(x, vec), a0);
        }
        timeVec := timeVec + [elapsed(x, i)];
        i := i + 1;
      }
    }

    /** The end of `perform_test`: sort the durations, take the middle one and the
        mean, then clear `time_vec`. */
    method Summarise(x: Algorithm, elapsed: (Algorithm, nat) -> nat) returns (median: nat, average: nat)
      requires testCount > 0 && timeVec == Trials(x, testCount, elapsed)
      modifies this`timeVec
      ensures timeVec == []
      ensures median == Median(Trials(x, testCount, elapsed))
      ensures average == Mean(Trials(x, testCount, elapsed))
    {
      timeVec := Ascending(timeVec);
      Summaries(x, testCount, elapsed);
      median := timeVec[testCount / 2];
      average := Sum(timeVec) / testCount;
      timeVec := [];
    }

    /** `table_row`: measure the routine, then write its row. */
    method TableRow(x: Algorithm, elapsed: (Algorithm, nat) -> nat)
      returns (r: Result<string>, ghost comparison: nat, ghost assignment: nat)
      requires Valid() && testCount > 0
      modifies this`timeVec
      ensures Valid()
      ensures r == RowText(Name(x), |vec|, testCount, comparison, assignment,
                           MedianTime(x, testCount, elapsed), AverageTime(x, testCount, elapsed))
      ensures Exact(x) ==> comparison == ComparisonDelta(x, vec) && assignment == AssignmentDelta(x, vec)
    {
      var c, a, median, average;
      ghost var tc, ta;
      c, a, median, average, tc, ta := PerformTest(x, elapsed);
      r := RowText(Name(x), |vec|, testCount, c, a, median, average);
      comparison, assignment := c, a;
    }

    /** `table += table_row(...)` for the routine at bit position `index`: the row is
        measured and written, and either appended to the table so far or thrown. */
    method AppendRow(index: nat, elapsed: (Algorithm, nat) -> nat, table: string)
      returns (r: Result<string>, ghost row: Result<string>, ghost count: (nat, nat))
      requires Valid() && testCount > 0 && index < AlgorithmCount
      modifies this`timeVec
      ensures Valid() && RowOf(vec, testCount, index, elapsed, count, row)
      ensures row.Ok? ==> r == Ok(table + row.value)
      ensures row.Err? ==> r == Err(row.error) && row.error == RuntimeError(TableExceeded)
    {
      var x := FromIndex(index);
      var written;
      ghost var c, a;
      written, c, a := TableRow(x, elapsed);
      row, count := written, (c, a);
      if written.Err? {
        ResultRowFits(Name(x), ReadableNumber(|vec|), ReadableNumber(testCount),
                      ReadableNumber(c), ReadableNumber(a),
                      DurationText(MedianTime(x, testCount, elapsed)),
                      DurationText(AverageTime(x, testCount, elapsed)));
        r := Err(written.error);
      } else {
        r := Ok(table + written.value);
      }
    }

    /** One pass of the loop of `compare_impl`, for bit position `index`: a selected
        routine has its row measured, written and appended, or thrown; an unselected
        one changes nothing. The ghost sequences record the rows and counts so far. */
    method Visit(select: nat, index: nat, elapsed: (Algorithm, nat) -> nat, ghost title: string,
                 table: string, ghost rows: seq<Result<string>>, ghost counts: seq<(nat, nat)>,
                 ghost lines: seq<string>)
      returns (next: Result<string>, ghost rows': seq<Result<string>>,
               ghost counts': seq<(nat, nat)>, ghost lines': seq<string>)
      requires Valid() && testCount > 0 && index < AlgorithmCount
      requires VisitedUpTo(vec, testCount, select, index, elapsed, rows, counts, lines)
      requires table == title + Concat(lines)
      modifies this`timeVec
      ensures Valid()
      ensures next.Ok? ==>
        VisitedUpTo(vec, testCount, select, index + 1, elapsed, rows', counts', lines')
        && next.value == title + Concat(lines')
      ensures next.Err? ==> Stopped(vec, testCount, select, elapsed, rows', counts', lines', next.error)
    {
      SelectedStep(select, index);
      if Selected(select, index) {
        next, rows', counts', lines' := VisitSelected(select, index, elapsed, title, table, rows, counts, lines);
      } else {
        next, rows', counts', lines' := Ok(table), rows, counts, lines;
      }
    }

    /** `Visit` for a selected bit position. */
    method VisitSelected(select: nat, index: nat, elapsed: (Algorithm, nat) -> nat,
                         ghost title: string, table: string, ghost rows: seq<Result<string>>,
                         ghost counts: seq<(nat, nat)>, ghost lines: seq<string>)
      returns (next: Result<string>, ghost rows': seq<Result<string>>,
               ghost counts': seq<(nat, nat)>, ghost lines': seq<string>)
      requires Valid() && testCount > 0 && index < AlgorithmCount && Selected(select, index)
      requires VisitedUpTo(vec, testCount, select, index, elapsed, rows, counts, lines)
      requires table == title + Concat(lines)
      modifies this`timeVec
      ensures Valid()
      ensures next.Ok? ==>
        VisitedUpTo(vec, testCount, select, index + 1, elapsed, rows', counts', lines')
        && next.value == title + Concat(lines')
      ensures next.Err? ==> Stopped(vec, testCount, select, elapsed, rows', counts', lines', next.error)
    {
      var appended;
      ghost var row, count;
      appended, row, count := AppendRow(index, elapsed, table);
      rows', counts', lines' := rows + [row], counts + [count], lines;
      if appended.Err? {
        PushStopped(RowCheck(vec, testCount, elapsed), select, index, rows, counts, lines, row, count);
      } else {
        PushWritten(RowCheck(vec, testCount, elapsed), select, index, rows, counts, lines, row, count,
                    title, table);
        lines' := lines + [row.value];
      }
      next := appended;
    }

    /** `compare_impl`: the title, then, for every selected bit position in ascending
        order, that routine's row, then a closing '+' line. The first row that does not
        fit ends the table with the table-size message. `elapsed(x, i)` is the duration
        of trial i of routine x. */
    method Compare(select: nat, elapsed: (Algorithm, nat) -> nat)
      returns (r: Result<string>, ghost rows: seq<Result<string>>, ghost counts: seq<(nat, nat)>,
               ghost lines: seq<string>)
      requires Valid() && testCount > 0
      modifies this`timeVec
      ensures Valid()
      ensures r.Ok? ==>
        VisitedUpTo(vec, testCount, select, AlgorithmCount, elapsed, rows, counts, lines)
        && r.value == TableTitle() + Concat(lines) + HorizontalLine('+')
      ensures r.Err? ==> Stopped(vec, testCount, select, elapsed, rows, counts, lines, r.error)
    {
      ghost var title := TableTitle();
      var out := TableTitle();
      rows, counts, lines := [], [], [];
      for i := 0 to AlgorithmCount
        invariant Valid() && VisitedUpTo(vec, testCount, select, i, elapsed, rows, counts, lines)
        invariant out == title + Concat(lines)
      {
        var next;
        next, rows, counts, lines := Visit(select, i, elapsed, title, out, rows, counts, lines);
        if next.Err? {
          r := Err(next.error);
          return;
        }
        out := next.value;
      }
      r := Ok(out + HorizontalLine('+'));
    }
  }

  /** The loop of `compare_impl` threw at a row: every routine visited up to it has its
      row, the rows before it are written, and it is the table-size exception. */
  ghost predicate Stopped(vec: seq<int>, testCount: int, select: nat,
                          elapsed: (Algorithm, nat) -> nat, rows: seq<Result<string>>,
                          counts: seq<(nat, nat)>, lines: seq<string>, error: Error)
  {
    Halted(RowCheck(vec, testCount, elapsed), select, rows, counts, lines, error)
  }

  /** `Stopped` for rows checked by p. */
  ghost predicate Halted(p: (nat, (nat, nat), Result<string>) -> bool, select: nat,
                         rows: seq<Result<string>>, counts: seq<(nat, nat)>, lines: seq<string>,
                         error: Error)
  {
    EveryRow(p, SelectedBelow(select, AlgorithmCount), counts, rows)
    && Written(rows, lines) && |rows| == |lines| + 1 && rows[|lines|] == Err(error)
    && error == RuntimeError(TableExceeded)
  }

  /** The loop of `compare_impl` has looked at the bit positions below n without a
      throw: one written row per selected position. */
  ghost predicate VisitedUpTo(vec: seq<int>, testCount: int, select: nat, n: nat,
                              elapsed: (Algorithm, nat) -> nat, rows: seq<Result<string>>,
                              counts: seq<(nat, nat)>, lines: seq<string>)
  {
    Visited(RowCheck(vec, testCount, elapsed), select, n, rows, counts, lines)
  }

  /** `VisitedUpTo` for rows checked by p. */
  ghost predicate Visited(p: (nat, (nat, nat), Result<string>) -> bool, select: nat, n: nat,
                          rows: seq<Result<string>>, counts: seq<(nat, nat)>, lines: seq<string>)
  {
    var sel := SelectedBelow(select, n);
    EveryRow(p, sel, counts, rows) && Written(rows, lines) && |rows| == |lines| == |sel|
  }

  /** The rows of the routines visited in `sel` so far, each with its counts. */
  ghost predicate RowsOf(vec: seq<int>, testCount: int, sel: seq<nat>,
                         elapsed: (Algorithm, nat) -> nat, counts: seq<(nat, nat)>,
                         rows: seq<Result<string>>)
  {
    EveryRow(RowCheck(vec, testCount, elapsed), sel, counts, rows)
  }

  /** `RowOf` for a fixed input, test count and clock. */
  ghost function RowCheck(vec: seq<int>, testCount: int, elapsed: (Algorithm, nat) -> nat)
    : (nat, (nat, nat), Result<string>) -> bool
  {
    (index: nat, count: (nat, nat), row: Result<string>) => RowOf(vec, testCount, index, elapsed, count, row)
  }

  /** Row k, with counts k, satisfies p for position k of `sel`. */
  ghost predicate EveryRow(p: (nat, (nat, nat), Result<string>) -> bool, sel: seq<nat>,
                           counts: seq<(nat, nat)>, rows: seq<Result<string>>)
  {
    |rows| == |counts| <= |sel| && forall k :: 0 <= k < |rows| ==> p(sel[k], counts[k], rows[k])
  }

  /** The rows up to the last are written, and their text is in `lines`. */
  ghost predicate Written(rows: seq<Result<string>>, lines: seq<string>) {
    |lines| <= |rows| && forall k :: 0 <= k < |lines| ==> rows[k] == Ok(lines[k])
  }

  /** One more written row adds its text. */
  lemma WrittenPush(rows: seq<Result<string>>, lines: seq<string>, line: string)
    requires Written(rows, lines) && |rows| == |lines|
    ensures Written(rows + [Ok(line)], lines + [line])
  {}

  /** Visiting one more routine adds its row. */
  lemma RowsPush(p: (nat, (nat, nat), Result<string>) -> bool, sel: seq<nat>, index: nat,
                 counts: seq<(nat, nat)>, rows: seq<Result<string>>, count: (nat, nat),
                 row: Result<string>)
    requires EveryRow(p, sel, counts, rows) && |rows| == |sel| && p(index, count, row)
    ensures EveryRow(p, sel + [index], counts + [count], rows + [row])
  {}

  /** Rows for a prefix of the visiting order are rows for the whole order. */
  lemma RowsWiden(p: (nat, (nat, nat), Result<string>) -> bool, sel: seq<nat>, sel': seq<nat>,
                  counts: seq<(nat, nat)>, rows: seq<Result<string>>)
    requires EveryRow(p, sel, counts, rows) && sel <= sel'
    ensures EveryRow(p, sel', counts, rows)
  {}

  /** One trial of `perform_test`: a fresh buffer holding a copy of the input is sorted
      by routine x; the counters grow as `Run` says, and the input is not touched. */
  method Trial(x: Algorithm, v: seq<int>, comparison: nat, assignment: nat)
    returns (comparison': nat, assignment': nat)
    ensures comparison <= comparison' && assignment <= assignment'
    ensures Exact(x) ==>
      comparison' == comparison + ComparisonDelta(x, v)
      && assignment' == assignment + AssignmentDelta(x, v)
  {
    var temp := new int[|v|](k requires 0 <= k < |v| => v[k]);
    assert temp[..] == v;
    comparison', assignment' := Run(x, temp, comparison, assignment);
  }

  /** One more call with the same delta adds one more share to the running total. */
  lemma OneMoreShare(i: nat, d: nat, total: nat)
    requires total == i * d
    ensures total + d == (i + 1) * d
  {}

  /** What `perform_test` reads off the sorted buffer is the median and the mean of
      the trial durations, both non-negative. The median conjunct is `Median`'s own
      definition; the content is the mean: summing the sorted buffer gives the sum of
      the trials in measured order. */
  lemma Summaries(x: Algorithm, n: nat, elapsed: (Algorithm, nat) -> nat)
    requires n > 0
    ensures var t := Trials(x, n, elapsed);
      |Ascending(t)| == n && Ascending(t)[n / 2] == Median(t) >= 0
      && Sum(Ascending(t)) / n == Mean(t) >= 0
  {
    var t := Trials(x, n, elapsed);
    SummariesNonNegative(x, n, elapsed);
    MeanAscending(t);
  }

  /** A row that does not fit ends the visit: the rows so far, this one included, are
      those of the first selected routines, and only this one was not written. */
  lemma PushStopped(p: (nat, (nat, nat), Result<string>) -> bool, select: nat, index: nat,
                    rows: seq<Result<string>>, counts: seq<(nat, nat)>, lines: seq<string>,
                    row: Result<string>, count: (nat, nat))
    requires index < AlgorithmCount && Selected(select, index)
    requires Visited(p, select, index, rows, counts, lines) && p(index, count, row)
    requires row.Err? && row.error == RuntimeError(TableExceeded)
    ensures Halted(p, select, rows + [row], counts + [count], lines, row.error)
  {
    RowsToEnd(p, select, index, AlgorithmCount, counts, rows, count, row);
    WrittenKeep(rows, lines, row);
  }

  /** The rows of the positions visited before a selected one, then its row, are rows
      for every position that will be visited. */
  lemma RowsToEnd(p: (nat, (nat, nat), Result<string>) -> bool, select: nat, index: nat, n: nat,
                  counts: seq<(nat, nat)>, rows: seq<Result<string>>, count: (nat, nat),
                  row: Result<string>)
    requires index < n && Selected(select, index)
    requires EveryRow(p, SelectedBelow(select, index), counts, rows)
    requires |rows| == |SelectedBelow(select, index)| && p(index, count, row)
    ensures EveryRow(p, SelectedBelow(select, n), counts + [count], rows + [row])
  {
    var sel := SelectedBelow(select, index);
    SelectedStep(select, index);
    RowsPush(p, sel, index, counts, rows, count, row);
    SelectedPrefix(select, index + 1, n);
    RowsWiden(p, sel + [index], SelectedBelow(select, n), counts + [count], rows + [row]);
  }

  /** A row that is not written leaves the written rows as they were. */
  lemma WrittenKeep(rows: seq<Result<string>>, lines: seq<string>, row: Result<string>)
    requires Written(rows, lines) && |rows| == |lines|
    ensures Written(rows + [row], lines) && (rows + [row])[|lines|] == row
  {}

  /** A row that fits is written after the rows so far: the visit has then covered one
      more bit position, and the table is the title followed by the written rows. */
  lemma PushWritten(p: (nat, (nat, nat), Result<string>) -> bool, select: nat, index: nat,
                    rows: seq<Result<string>>, counts: seq<(nat, nat)>, lines: seq<string>,
                    row: Result<string>, count: (nat, nat), title: string, table: string)
    requires index < AlgorithmCount && Selected(select, index)
    requires Visited(p, select, index, rows, counts, lines) && p(index, count, row) && row.Ok?
    requires table == title + Concat(lines)
    ensures Visited(p, select, index + 1, rows + [row], counts + [count], lines + [row.value])
    ensures table + row.value == title + Concat(lines + [row.value])
  {
    var sel := SelectedBelow(select, index);
    SelectedStep(select, index);
    RowsPush(p, sel, index, counts, rows, count, row);
    WrittenPush(rows, lines, row.value);
    ConcatAppend(lines, row.value);
    Order.AppendAssociative(title, Concat(lines), row.value);
  }

  /** `row` is the row of the routine at bit position `index`, written with the counts
      of `count` and the median and mean of that routine's trial durations. */
  ghost predicate RowOf(vec: seq<int>, testCount: int, index: nat,
                        elapsed: (Algorithm, nat) -> nat, count: (nat, nat), row: Result<string>)
  {
    index < AlgorithmCount && testCount > 0
    && var x := FromIndex(index);
    row == RowText(Name(x), |vec|, testCount, count.0, count.1,
                   MedianTime(x, testCount, elapsed), AverageTime(x, testCount, elapsed))
    && (Exact(x) ==> count == (ComparisonDelta(x, vec), AssignmentDelta(x, vec)))
  }

  lemma ConcatAppend(lines: seq<string>, line: string)
    ensures Concat(lines + [line]) == Concat(lines) + line
  {
    assert (lines + [line])[..|lines|] == lines;
  }

  /** The integer share of each of n tests in a total, as `comparison /= m_test_count`
      computes it. */
  function Share(total: nat, n: nat): nat
    requires n > 0
  {
    total / n
  }

  /** Dividing the totals of n trials of an exactly counted routine by n gives back one
      call's deltas. */
  lemma SharesBack(x: Algorithm, vec: seq<int>, n: nat, c: nat, a: nat)
    requires n > 0
    requires Exact(x) ==> c == n * ComparisonDelta(x, vec) && a == n * AssignmentDelta(x, vec)
    ensures Exact(x) ==> Share(c, n) == ComparisonDelta(x, vec) && Share(a, n) == AssignmentDelta(x, vec)
  {
    if Exact(x) {
      DivUnique(n * ComparisonDelta(x, vec), n, ComparisonDelta(x, vec), 0);
      DivUnique(n * AssignmentDelta(x, vec), n, AssignmentDelta(x, vec), 0);
    }
  }
}
