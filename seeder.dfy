/**
 * The seeder: the encoder's rows become the initial generation, centred
 * vertically on the nominal grid and starting at column 16.  Row i of the
 * input is grid row StartRow + i; digit j of a row is grid column
 * StartCol + j; a cell is live exactly where the digit is '1'.
 */
module Seeder {
  import opened Cells
  import opened Encoder

  /** First grid row of an L-row block (Python floor division; Dafny's / agrees for divisor 2). */
  function StartRow(rowCount: int): int {
    (Rows - rowCount) / 2
  }

  /** First grid column of the block: (40 - 8) / 2. */
  const StartCol: int := (Columns - 8) / 2

  /**
   * c is seeded when it lies inside the block and the digit it covers is '1';
   * this reads the block back from the cell's coordinates.
   */
  predicate IsSeedCell(binList: seq<string>, c: Cell) {
    var i := c.0 - StartRow(|binList|);
    var j := c.1 - StartCol;
    0 <= i < |binList| && 0 <= j < |binList[i]| && binList[i][j] == '1'
  }

  /** The initial generation as a value. */
  function InitialLiveCells(binList: seq<string>): (cells: Generation)
    ensures forall c :: c in cells <==> IsSeedCell(binList, c)
  {
    var r0 := StartRow(|binList|);
    var cells := set i, j | 0 <= i < |binList| && 0 <= j < |binList[i]| && binList[i][j] == '1' :: (r0 + i, StartCol + j);
    assert forall c :: IsSeedCell(binList, c) ==> c in cells by {
      forall c | IsSeedCell(binList, c) ensures c in cells {
        var i, j := c.0 - r0, c.1 - StartCol;
        assert c == (r0 + i, StartCol + j);
      }
    }
    cells
  }

  /** The nested loops of the source, adding one cell per '1' digit. */
  method GenerateInitialLiveCells(binList: seq<string>) returns (liveCells: Generation)
    ensures forall c :: c in liveCells <==> IsSeedCell(binList, c)
    ensures liveCells == InitialLiveCells(binList)
  {
    var startRow := StartRow(|binList|);
    var startCol := StartCol;
    liveCells := {};
    var i := 0;
    while i < |binList|
      invariant 0 <= i <= |binList|
      invariant forall c :: c in liveCells <==> IsSeedCell(binList, c) && c.0 < startRow + i
    {
      var row := binList[i];
      var j := 0;
      while j < |row|
        invariant 0 <= j <= |row|
        invariant forall c :: c in liveCells <==>
                    IsSeedCell(binList, c) && (c.0 < startRow + i || (c.0 == startRow + i && c.1 < startCol + j))
      {
        if row[j] == '1' {
          liveCells := liveCells + {(startRow + i, startCol + j)};
        }
        j := j + 1;
      }
      i := i + 1;
    }
  }

  /** An empty row list, or rows without a '1', seed nothing. */
  lemma SeedOfNothing(binList: seq<string>)
    requires forall i, j :: 0 <= i < |binList| && 0 <= j < |binList[i]| ==> binList[i][j] != '1'
    ensures InitialLiveCells(binList) == {}
  {
  }

  /**
   * Rows of at most eight digits (every code point below 256), at most
   * sixty of them, stay inside the nominal grid: rows 0..59, columns 16..23.
   */
  lemma SeedInsideGrid(binList: seq<string>)
    requires |binList| <= Rows
    requires forall i :: 0 <= i < |binList| ==> |binList[i]| <= RowWidth
    ensures forall c :: c in InitialLiveCells(binList) ==>
              0 <= c.0 < Rows && StartCol <= c.1 < StartCol + RowWidth
  {
  }

  /** Every cell of the block is in the nominal grid after encoding a short word of bytes. */
  lemma WordSeedInsideGrid(word: string)
    requires forall i :: 0 <= i < |word| ==> word[i] as int < 256
    ensures forall c :: c in InitialLiveCells(Bitmask(word)) ==>
              0 <= c.0 < Rows && StartCol <= c.1 < StartCol + RowWidth
  {
    BitmaskShape(word);
    SeedInsideGrid(Bitmask(word));
  }

  /** A '1' digit at row i, position j seeds the cell it covers. */
  lemma SeedCellAt(binList: seq<string>, i: nat, j: nat)
    requires i < |binList| && j < |binList[i]| && binList[i][j] == '1'
    ensures (StartRow(|binList|) + i, StartCol + j) in InitialLiveCells(binList)
  {
    assert IsSeedCell(binList, (StartRow(|binList|) + i, StartCol + j));
  }

  /** A word of one to sixty characters, one of them not NUL, seeds at least one cell. */
  lemma WordSeedNonEmpty(word: string, k: nat)
    requires |word| <= MaxWordLength
    requires k < |word| && word[k] as int > 0
    ensures InitialLiveCells(Bitmask(word)) != {}
  {
    var rows := Bitmask(word);
    assert |rows| == |word| && rows[k] == CharBits(word[k]);
    CharBitsHasOne(word[k]);
    var j :| 0 <= j < |rows[k]| && rows[k][j] == '1';
    SeedCellAt(rows, k, j);
  }

  /** The examples of the test suite. */
  lemma SeederExamples()
    ensures InitialLiveCells(["00000001"]) == {(29, 23)}
    ensures InitialLiveCells(["01000001"]) == {(29, 17), (29, 23)}
    ensures InitialLiveCells(["10000001", "01000010"]) == {(29, 16), (29, 23), (30, 17), (30, 22)}
    ensures InitialLiveCells(["00000000", "00000000"]) == {}
    ensures InitialLiveCells([]) == {}
  {
    assert StartRow(1) == 29 && StartRow(2) == 29 && StartCol == 16;
    SeedOfNothing(["00000000", "00000000"]);
    SeedOfNothing([]);
  }
}
