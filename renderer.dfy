/**
 * The text picture of a rectangle of the board: one line per row, one
 * marker per column, lines joined by newlines.
 */
module Renderer {
  import opened Cells

  /** The marker of a live cell (U+1F7E9, a green square). */
  const Alive: char := '\U{1F7E9}'

  /**
   * The marker of a dead cell. The source assigns a white square first and
   * then rebinds the name to U+2027 (a hyphenation point); the second wins.
   */
  const Dead: char := '\U{2027}'

  /** The marker for one cell. */
  function Marker(live: Generation, c: Cell): char {
    if c in live then Alive else Dead
  }

  /** The row's text between two columns: one marker per column, none when the range is empty. */
  function RowText(live: Generation, row: int, startCol: int, endCol: int): (t: string)
    ensures |t| == if endCol > startCol then endCol - startCol else 0
    ensures forall k :: 0 <= k < |t| ==> t[k] == Marker(live, (row, startCol + k))
  {
    seq(if endCol > startCol then endCol - startCol else 0, k => Marker(live, (row, startCol + k)))
  }

  /** The rows of the rectangle [startRow, endRow) x [startCol, endCol), top to bottom. */
  function Grid(live: Generation, startRow: int, startCol: int, endRow: int, endCol: int): (lines: seq<string>)
    ensures |lines| == if endRow > startRow then endRow - startRow else 0
    ensures forall i :: 0 <= i < |lines| ==> lines[i] == RowText(live, startRow + i, startCol, endCol)
  {
    seq(if endRow > startRow then endRow - startRow else 0, i => RowText(live, startRow + i, startCol, endCol))
  }

  /** Lines glued with a newline between each two: the empty list gives the empty text. */
  function Join(lines: seq<string>): string {
    if |lines| == 0 then ""
    else if |lines| == 1 then lines[0]
    else lines[0] + "\n" + Join(lines[1..])
  }

  /** A text cut at every newline; a text without one is a single line. */
  function Split(s: string): (lines: seq<string>)
    ensures |lines| >= 1
  {
    if |s| == 0 then [""]
    else
      var rest := Split(s[1..]);
      if s[0] == '\n' then [""] + rest
      else [[s[0]] + rest[0]] + rest[1..]
  }

  predicate NoNewline(line: string) {
    forall k :: 0 <= k < |line| ==> line[k] != '\n'
  }

  /** Text without a newline in front of a text extends that text's first line. */
  lemma {:induction false} SplitPrefix(a: string, rest: string)
    requires NoNewline(a)
    ensures Split(a + rest) == [a + Split(rest)[0]] + Split(rest)[1..]
  {
    if |a| > 0 {
      SplitPrefix(a[1..], rest);
      assert (a + rest)[1..] == a[1..] + rest;
      assert [a[0]] + (a[1..] + Split(rest)[0]) == a + Split(rest)[0];
    } else {
      var r := Split(rest);
      assert a + rest == rest && a + r[0] == r[0];
      assert r == [r[0]] + r[1..];
    }
  }

  /** Joining lines without newlines and splitting the result gives the lines back. */
  lemma {:induction false} SplitJoin(lines: seq<string>)
    requires |lines| >= 1
    requires forall i :: 0 <= i < |lines| ==> NoNewline(lines[i])
    ensures Split(Join(lines)) == lines
  {
    if |lines| == 1 {
      SplitPrefix(lines[0], "");
      assert lines[0] + "" == lines[0];
    } else {
      var tail := "\n" + Join(lines[1..]);
      SplitJoin(lines[1..]);
      assert Join(lines) == lines[0] + tail;
      SplitPrefix(lines[0], tail);
      assert tail[1..] == Join(lines[1..]);
      assert Split(tail) == [""] + lines[1..];
      assert lines[0] + "" == lines[0];
      assert lines == [lines[0]] + lines[1..];
    }
  }

  /** No marker is a newline, so no row text holds one. */
  lemma RowsHaveNoNewline(live: Generation, startRow: int, startCol: int, endRow: int, endCol: int)
    ensures var g := Grid(live, startRow, startCol, endRow, endCol);
            forall i :: 0 <= i < |g| ==> NoNewline(g[i])
  {
  }

  /**
   * The picture of the rectangle [startRow, endRow) x [startCol, endCol):
   * line i shows row startRow + i, and its k-th character is the live
   * marker exactly when cell (startRow + i, startCol + k) is live.
   */
  method DisplayGrid(live: Generation, startRow: int, startCol: int, endRow: int, endCol: int)
      returns (s: string)
    ensures s == Join(Grid(live, startRow, startCol, endRow, endCol))
    ensures endRow <= startRow ==> s == ""
    ensures endRow > startRow ==>
              |Split(s)| == endRow - startRow &&
              forall i :: 0 <= i < endRow - startRow ==> Split(s)[i] == RowText(live, startRow + i, startCol, endCol)
  {
    var grid: seq<string> := [];
    var row := startRow;
    while row < endRow
      invariant startRow <= row
      invariant endRow > startRow ==> row <= endRow
      invariant endRow <= startRow ==> row == startRow
      invariant grid == Grid(live, startRow, startCol, row, endCol)
      decreases endRow - row
    {
      grid := grid + [RowText(live, row, startCol, endCol)];
      row := row + 1;
    }
    assert grid == Grid(live, startRow, startCol, endRow, endCol);
    s := Join(grid);
    if endRow > startRow {
      RowsHaveNoNewline(live, startRow, startCol, endRow, endCol);
      SplitJoin(grid);
    }
  }

  /** The whole board with the default rectangle: sixty lines of forty markers. */
  method DisplayBoard(live: Generation) returns (s: string)
    ensures |Split(s)| == Rows
    ensures forall i :: 0 <= i < Rows ==> Split(s)[i] == RowText(live, i, 0, Columns) && |Split(s)[i]| == Columns
  {
    s := DisplayGrid(live, 0, 0, Rows, Columns);
  }

  /** The example of the test suite: two live cells then a dead one on a single row. */
  lemma DisplayExample()
    ensures Join(Grid({(0, 0), (0, 1)}, 0, 0, 1, 3)) == [Alive, Alive, Dead]
  {
    var g := Grid({(0, 0), (0, 1)}, 0, 0, 1, 3);
    assert g[0] == [Alive, Alive, Dead];
  }
}
