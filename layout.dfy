/** The layout both report writers share: seven columns of fixed widths, horizontal
    lines of dashes between separators, and rows of cells between `|` bars. */
module Layout {
  import opened Text

  /** The widths of the seven columns: algorithm, input size, number of tests,
      comparisons, assignments, median time and average time. */
  const ColumnWidths: seq<nat> := [13, 16, 14, 21, 21, 25, 25]

  /** Every line of the table, its newline included, is this long. */
  const LineLength := 144

  /** How a cell is aligned in its column; both report writers have this enumeration. */
  datatype Format = Left | Centered | Right

  /** The message of the exception thrown when a cell does not fit its column. */
  const TableExceeded := "failed to create table, table size exceeded"

  /** The horizontal line with separator c: c, then each column's run of dashes followed
      by c, then a newline. */
  function HorizontalLine(c: char): (r: string)
    ensures |r| == LineLength && r[0] == c && r[LineLength - 2] == c && r[LineLength - 1] == '\n'
  {
    [c] + Repeat(13, '-') + [c] + Repeat(16, '-') + [c] + Repeat(14, '-') + [c]
    + Repeat(21, '-') + [c] + Repeat(21, '-') + [c] + Repeat(25, '-') + [c]
    + Repeat(25, '-') + [c] + "\n"
  }

  /** The positions of the separators in a horizontal line: the column boundaries. */
  function Boundary(k: int): bool {
    k == 0 || k == 14 || k == 31 || k == 46 || k == 68 || k == 90 || k == 116 || k == 142
  }

  /** A horizontal line is one table line long, holds c exactly at the eight column
      boundaries, dashes everywhere else, and ends in a newline. */
  lemma HorizontalLineShape(c: char)
    ensures var r := HorizontalLine(c);
      |r| == LineLength && r[LineLength - 1] == '\n'
      && forall k :: 0 <= k < LineLength - 1 ==> r[k] == (if Boundary(k) then c else '-')
  {
    var r := HorizontalLine(c);
    var d := Repeat(13, '-');
    var e := Repeat(16, '-');
    var f := Repeat(14, '-');
    var g := Repeat(21, '-');
    var h := Repeat(25, '-');
    var p1 := [c] + d + [c];
    var p2 := p1 + e + [c];
    var p3 := p2 + f + [c];
    var p4 := p3 + g + [c];
    var p5 := p4 + g + [c];
    var p6 := p5 + h + [c];
    var p7 := p6 + h + [c];
    assert r == p7 + "\n";
    forall k | 0 <= k < LineLength - 1 ensures r[k] == (if Boundary(k) then c else '-') {
      assert r[k] == p7[k];
      if k <= 14 {
        assert p7[k] == p1[k];
      } else if k <= 31 {
        assert p7[k] == p2[k];
      } else if k <= 46 {
        assert p7[k] == p3[k];
      } else if k <= 68 {
        assert p7[k] == p4[k];
      } else if k <= 90 {
        assert p7[k] == p5[k];
      } else if k <= 116 {
        assert p7[k] == p6[k];
      }
    }
  }

  /** A row of the table: `|`, the seven cells each followed by `|`, then a newline. */
  function RowLine(c0: string, c1: string, c2: string, c3: string, c4: string, c5: string,
                   c6: string): (r: string)
    ensures |r| == |c0| + |c1| + |c2| + |c3| + |c4| + |c5| + |c6| + 9
    ensures r[0] == '|' && r[|r| - 2] == '|' && r[|r| - 1] == '\n'
  {
    "|" + c0 + "|" + c1 + "|" + c2 + "|" + c3 + "|" + c4 + "|" + c5 + "|" + c6 + "|\n"
  }

  /** Cells exactly as wide as their columns make a row one table line long. */
  lemma RowLineLength(c0: string, c1: string, c2: string, c3: string, c4: string, c5: string,
                      c6: string)
    requires |c0| == ColumnWidths[0] && |c1| == ColumnWidths[1] && |c2| == ColumnWidths[2]
    requires |c3| == ColumnWidths[3] && |c4| == ColumnWidths[4] && |c5| == ColumnWidths[5]
    requires |c6| == ColumnWidths[6]
    ensures |RowLine(c0, c1, c2, c3, c4, c5, c6)| == LineLength
  {}

  /** Lines written one after the other. */
  function Concat(lines: seq<string>): string
    decreases |lines|
  {
    if lines == [] then "" else Concat(lines[..|lines| - 1]) + lines[|lines| - 1]
  }
}
