/** `Utils.SaveNoiseToCSV`: the grid is written one x per line, the values
    of the line being `[x, 0], [x, 1], ...` separated by commas with no
    trailing comma, and every line, the last included, ends with the
    platform newline. The newline is a parameter, and the text of a cell is
    given (for the heights, which are `int`, it is the invariant-culture
    decimal). */
module Csv {

  // ---------------------------------------------------------------------
  // Writing
  // ---------------------------------------------------------------------

  /** The cells of one line with a comma between neighbours. */
  function Join(cells: seq<string>): string
  {
    if |cells| == 0 then ""
    else if |cells| == 1 then cells[0]
    else cells[0] + "," + Join(cells[1..])
  }

  /** Every line followed by the newline. */
  function Text(rows: seq<seq<string>>, newline: string): string
  {
    if |rows| == 0 then "" else Join(rows[0]) + newline + Text(rows[1..], newline)
  }

  lemma {:induction false} JoinSnoc(cells: seq<string>, c: string)
    requires |cells| > 0
    ensures Join(cells + [c]) == Join(cells) + "," + c
  {
    if |cells| > 1 {
      JoinSnoc(cells[1..], c);
      assert (cells + [c])[1..] == cells[1..] + [c];
    }
  }

  lemma {:induction false} TextSnoc(rows: seq<seq<string>>, row: seq<string>, newline: string)
    ensures Text(rows + [row], newline) == Text(rows, newline) + Join(row) + newline
  {
    var all := rows + [row];
    if |rows| == 0 {
      assert all == [row] && all[1..] == [];
    } else {
      TextSnoc(rows[1..], row, newline);
      assert all[0] == rows[0] && all[1..] == rows[1..] + [row];
      calc {
        Text(all, newline);
        Join(rows[0]) + newline + Text(rows[1..] + [row], newline);
        Join(rows[0]) + newline + (Text(rows[1..], newline) + Join(row) + newline);
        (Join(rows[0]) + newline + Text(rows[1..], newline)) + Join(row) + newline;
      }
    }
  }

  /** What the inner loop has appended after `y` cells of a line of
      `height`: the joined cells, and the comma owed to the next cell. */
  function PartialLine(row: seq<string>, y: nat, height: nat): string
    requires y <= |row|
  {
    if y == 0 then "" else Join(row[..y]) + (if y < height then "," else "")
  }

  /** The inner loop of `SaveNoiseToCSV`: the cells of one row, a comma
      after every cell but the last. */
  method WriteLine(row: seq<string>, height: nat) returns (line: string)
    requires |row| == height
    ensures line == Join(row)
  {
    line := "";
    var y := 0;
    while y < height
      invariant y <= height
      invariant line == PartialLine(row, y, height)
    {
      if y > 0 {
        JoinSnoc(row[..y], row[y]);
        assert row[..y + 1] == row[..y] + [row[y]];
      } else {
        assert row[..1] == [row[0]];
      }
      line := line + row[y];
      if y < height - 1 {
        line := line + ",";
      }
      y := y + 1;
    }
    assert row[..height] == row;
  }

  /** The two loops and the string builder of `SaveNoiseToCSV`. `rows[x][y]`
      is the text of `noise[x, y]`; every line has `height` cells and ends
      with the newline `AppendLine` writes. */
  method WriteCsv(rows: seq<seq<string>>, height: nat, newline: string) returns (text: string)
    requires forall x :: 0 <= x < |rows| ==> |rows[x]| == height
    ensures text == Text(rows, newline)
  {
    text := "";
    var x := 0;
    while x < |rows|
      invariant x <= |rows|
      invariant text == Text(rows[..x], newline)
    {
      var line := WriteLine(rows[x], height);
      TextSnoc(rows[..x], rows[x], newline);
      assert rows[..x + 1] == rows[..x] + [rows[x]];
      text := text + line + newline;
      x := x + 1;
    }
    assert rows[..x] == rows;
  }

  /** The number of occurrences of `c` in `s`. */
  function Occurrences(s: string, c: char): nat
  {
    if |s| == 0 then 0 else (if s[0] == c then 1 else 0) + Occurrences(s[1..], c)
  }

  lemma {:induction false} OccurrencesAppend(a: string, b: string, c: char)
    ensures Occurrences(a + b, c) == Occurrences(a, c) + Occurrences(b, c)
  {
    if |a| == 0 {
      assert a + b == b;
    } else {
      OccurrencesAppend(a[1..], b, c);
      assert (a + b)[1..] == a[1..] + b;
    }
  }

  /** A line of `height` comma-free cells holds `height - 1` commas: one
      after every cell but the last. */
  lemma {:induction false} JoinCommas(cells: seq<string>)
    requires |cells| > 0
    requires forall i :: 0 <= i < |cells| ==> Occurrences(cells[i], ',') == 0
    ensures Occurrences(Join(cells), ',') == |cells| - 1
  {
    if |cells| > 1 {
      JoinCommas(cells[1..]);
      OccurrencesAppend(cells[0] + ",", Join(cells[1..]), ',');
      OccurrencesAppend(cells[0], ",", ',');
    }
  }

  /** `n` newlines in a row. */
  function Repeat(newline: string, n: nat): string
  {
    if n == 0 then "" else newline + Repeat(newline, n - 1)
  }

  /** Width 0 writes nothing; height 0 writes `width` empty lines. */
  lemma {:induction false} EmptyGrids(rows: seq<seq<string>>, newline: string)
    requires forall x :: 0 <= x < |rows| ==> |rows[x]| == 0
    ensures Text(rows, newline) == Repeat(newline, |rows|)
    ensures |rows| == 0 ==> Text(rows, newline) == ""
  {
    if |rows| > 0 {
      EmptyGrids(rows[1..], newline);
      assert Join(rows[0]) == "";
    }
  }

  // ---------------------------------------------------------------------
  // Reading back
  // ---------------------------------------------------------------------

  /** The pieces of `s` between occurrences of `sep`; n separators give
      n + 1 pieces. */
  function Split(s: string, sep: char): (parts: seq<string>)
    ensures |parts| >= 1
  {
    if |s| == 0 then [""]
    else
      var rest := Split(s[1..], sep);
      if s[0] == sep then [""] + rest else [[s[0]] + rest[0]] + rest[1..]
  }

  lemma {:induction false} SplitNoSep(s: string, sep: char)
    requires sep !in s
    ensures Split(s, sep) == [s]
  {
    if |s| > 0 {
      SplitNoSep(s[1..], sep);
      assert [s[0]] + s[1..] == s;
    }
  }

  lemma {:induction false} SplitAppend(a: string, sep: char, b: string)
    requires sep !in a
    ensures Split(a + [sep] + b, sep) == [a] + Split(b, sep)
  {
    if |a| == 0 {
      assert a + [sep] + b == [sep] + b;
      assert ([sep] + b)[1..] == b;
    } else {
      SplitAppend(a[1..], sep, b);
      assert (a + [sep] + b)[1..] == a[1..] + [sep] + b;
      assert [a[0]] + a[1..] == a;
    }
  }

  /** A character that is neither the comma nor in any cell is not in the
      joined line. */
  lemma {:induction false} JoinAvoids(cells: seq<string>, c: char)
    requires c != ','
    requires forall i :: 0 <= i < |cells| ==> c !in cells[i]
    ensures c !in Join(cells)
  {
    if |cells| > 1 {
      JoinAvoids(cells[1..], c);
    }
  }

  /** Splitting a joined line at the commas gives its cells back, when no
      cell holds a comma. */
  lemma {:induction false} JoinSplit(cells: seq<string>)
    requires |cells| > 0
    requires forall i :: 0 <= i < |cells| ==> ',' !in cells[i]
    ensures Split(Join(cells), ',') == cells
  {
    if |cells| == 1 {
      SplitNoSep(cells[0], ',');
    } else {
      JoinSplit(cells[1..]);
      assert Join(cells) == cells[0] + [','] + Join(cells[1..]);
      SplitAppend(cells[0], ',', Join(cells[1..]));
      assert [cells[0]] + cells[1..] == cells;
    }
  }

  /** Splitting the text at a one-character newline gives the joined lines
      and the empty piece after the last newline. */
  lemma {:induction false} TextSplit(rows: seq<seq<string>>, nl: char)
    requires nl != ','
    requires forall x, y :: 0 <= x < |rows| && 0 <= y < |rows[x]| ==> nl !in rows[x][y]
    ensures Split(Text(rows, [nl]), nl) == seq(|rows|, x requires 0 <= x < |rows| => Join(rows[x])) + [""]
  {
    if |rows| > 0 {
      TextSplit(rows[1..], nl);
      JoinAvoids(rows[0], nl);
      SplitAppend(Join(rows[0]), nl, Text(rows[1..], [nl]));
    }
  }

  /** Reads a text back into lines of cells: the newline-separated lines,
      the empty piece after the final newline dropped, each split at the
      commas. */
  function Parse(text: string, nl: char): seq<seq<string>>
  {
    var lines := Split(text, nl);
    seq(|lines| - 1, x requires 0 <= x < |lines| - 1 => Split(lines[x], ','))
  }

  /** Writing and reading back give the grid, when every line has a cell
      and no cell holds a comma or the newline. */
  lemma CsvRoundTrip(rows: seq<seq<string>>, nl: char)
    requires nl != ','
    requires forall x :: 0 <= x < |rows| ==> |rows[x]| > 0
    requires forall x, y :: 0 <= x < |rows| && 0 <= y < |rows[x]| ==> ',' !in rows[x][y] && nl !in rows[x][y]
    ensures Parse(Text(rows, [nl]), nl) == rows
  {
    TextSplit(rows, nl);
    forall x | 0 <= x < |rows|
      ensures Split(Join(rows[x]), ',') == rows[x]
    {
      JoinSplit(rows[x]);
    }
  }

  // ---------------------------------------------------------------------
  // The heights grid
  // ---------------------------------------------------------------------

  function DigitChar(d: nat): char
    requires d < 10
  {
    "0123456789"[d]
  }

  function DigitValue(c: char): nat
  {
    if '0' <= c <= '9' then (c - '0') as nat else 0
  }

  /** The decimal digits of n, most significant first. */
  function Digits(n: nat): (s: string)
    ensures |s| > 0
    ensures forall i :: 0 <= i < |s| ==> '0' <= s[i] <= '9'
  {
    if n < 10 then [DigitChar(n)] else Digits(n / 10) + [DigitChar(n % 10)]
  }

  /** `int.ToString()`: a minus sign before the digits of a negative value. */
  function Decimal(n: int): string
  {
    if n < 0 then "-" + Digits(-n) else Digits(n)
  }

  function DigitsValue(s: string): nat
  {
    if |s| == 0 then 0 else 10 * DigitsValue(s[..|s| - 1]) + DigitValue(s[|s| - 1])
  }

  /** Reads a value written by `Decimal`. */
  function ReadDecimal(s: string): int
  {
    if |s| > 0 && s[0] == '-' then -(DigitsValue(s[1..]) as int) else DigitsValue(s)
  }

  lemma DigitCharValue(d: nat)
    requires d < 10
    ensures DigitValue(DigitChar(d)) == d
  {
  }

  lemma {:induction false} DigitsRoundTrip(n: nat)
    ensures DigitsValue(Digits(n)) == n
  {
    if n < 10 {
      DigitCharValue(n);
    } else {
      var s, d := Digits(n), n % 10;
      DigitsRoundTrip(n / 10);
      DigitCharValue(d);
      assert s[..|s| - 1] == Digits(n / 10) && s[|s| - 1] == DigitChar(d);
    }
  }

  lemma UnsignedRoundTrip(n: int)
    requires n >= 0
    ensures ReadDecimal(Decimal(n)) == n
  {
    var s := Digits(n);
    DigitsRoundTrip(n);
    assert s[0] != '-';
  }

  lemma NegativeRoundTrip(m: nat)
    requires m > 0
    ensures ReadDecimal(Decimal(-(m as int))) == -(m as int)
  {
    assert Decimal(-(m as int)) == "-" + Digits(m);
    ReadNegative(Digits(m));
    DigitsRoundTrip(m);
  }

  lemma ReadNegative(s: string)
    ensures ReadDecimal("-" + s) == -(DigitsValue(s) as int)
  {
    assert ("-" + s)[0] == '-' && ("-" + s)[1..] == s;
  }

  /** `ReadDecimal` inverts `Decimal`. */
  lemma DecimalRoundTrip(n: int)
    ensures ReadDecimal(Decimal(n)) == n
  {
    if n < 0 {
      NegativeRoundTrip(-n);
    } else {
      UnsignedRoundTrip(n);
    }
  }

  lemma DecimalChars(n: int)
    ensures forall i :: 0 <= i < |Decimal(n)| ==> Decimal(n)[i] == '-' || '0' <= Decimal(n)[i] <= '9'
  {
  }

  /** The text cells of the heights grid. */
  function HeightCells(heights: seq<seq<int>>): (rows: seq<seq<string>>)
    ensures |rows| == |heights|
    ensures forall x :: 0 <= x < |rows| ==> |rows[x]| == |heights[x]|
                                            && forall y :: 0 <= y < |rows[x]| ==> rows[x][y] == Decimal(heights[x][y])
  {
    seq(|heights|, x requires 0 <= x < |heights| =>
      seq(|heights[x]|, y requires 0 <= y < |heights[x]| => Decimal(heights[x][y])))
  }

  /** The file `SaveNoiseToCSV(heights, ...)` writes. */
  function HeightsCsv(heights: seq<seq<int>>, nl: char): string
  {
    Text(HeightCells(heights), [nl])
  }

  /** Reads the heights back from a file written by `HeightsCsv`. */
  function ReadHeights(text: string, nl: char): seq<seq<int>>
  {
    var rows := Parse(text, nl);
    seq(|rows|, x requires 0 <= x < |rows| =>
      seq(|rows[x]|, y requires 0 <= y < |rows[x]| => ReadDecimal(rows[x][y])))
  }

  /** The heights CSV reads back to the heights, for any newline character
      other than a digit, the minus sign or the comma, provided the grid has
      at least one column. */
  lemma HeightsRoundTrip(heights: seq<seq<int>>, nl: char)
    requires nl != ',' && nl != '-' && !('0' <= nl <= '9')
    requires forall x :: 0 <= x < |heights| ==> |heights[x]| > 0
    ensures ReadHeights(HeightsCsv(heights, nl), nl) == heights
  {
    var cells := HeightCells(heights);
    forall x, y | 0 <= x < |cells| && 0 <= y < |cells[x]|
      ensures ',' !in cells[x][y] && nl !in cells[x][y]
    {
      DecimalChars(heights[x][y]);
    }
    CsvRoundTrip(cells, nl);
    var back := ReadHeights(HeightsCsv(heights, nl), nl);
    assert |back| == |heights|;
    forall x | 0 <= x < |heights|
      ensures back[x] == heights[x]
    {
      forall y | 0 <= y < |heights[x]|
        ensures back[x][y] == heights[x][y]
      {
        DecimalRoundTrip(heights[x][y]);
      }
    }
  }
}
