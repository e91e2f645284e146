/**
 * The 10 × 10 HARD board whose rendering the minefield text test expects
 * for seed 4711, and the facts that make that text a generated board:
 * correct digits, twenty mines, none in the protected block, and draws that
 * generate exactly this board.
 */
module Fixture {

  import opened CellTypes
  import opened Adjacency
  import opened Board
  import opened Difficulty
  import opened MinefieldAscii

  /** The expected rendering, row by row. */
  const SmallText: string :=
    "111**2O1*1" + "\n" +
    "*223*31222" + "\n" +
    "3*1112*11*" + "\n" +
    "*21OO12332" + "\n" +
    "1211OO1**2" + "\n" +
    "23*1OO13*2" + "\n" +
    "**21O11211" + "\n" +
    "221O12*1OO" + "\n" +
    "111O1*3211" + "\n" +
    "1*1O12*11*"

  /** The board the text shows, column by column. */
  const SmallBoard: Grid := [
      [One, Mine, Three, Mine, One, Two, Mine, Two, One, One],
      [One, Two, Mine, Two, Two, Three, Mine, Two, One, Mine],
      [One, Two, One, One, One, Mine, Two, One, One, One],
      [Mine, Three, One, Empty, One, One, One, Empty, Empty, Empty],
      [Mine, Mine, One, Empty, Empty, Empty, Empty, One, One, One],
      [Two, Three, Two, One, Empty, Empty, One, Two, Mine, Two],
      [Empty, One, Mine, Two, One, One, One, Mine, Three, Mine],
      [One, Two, One, Three, Mine, Three, Two, One, Two, One],
      [Mine, Two, One, Three, Mine, Mine, One, Empty, One, One],
      [One, Two, Mine, Two, Two, Two, One, Empty, One, Mine]
  ]

  /** Its mines, as coordinate pairs. */
  const SmallMines: set<Cell> :=
    {(0, 1), (0, 3), (0, 6), (1, 2), (1, 6), (1, 9), (2, 5), (3, 0), (4, 0), (4, 1), (5, 8),
     (6, 2), (6, 7), (6, 9), (7, 4), (8, 0), (8, 4), (8, 5), (9, 2), (9, 9)}

  /** Its mines as 1 and every other cell as 0, with a border of zeros: entry [a + 1][b + 1] is cell (a, b). */
  const SmallMask: seq<seq<int>> := [
      [0, 0, 0, 0, 0, 0, 0, 0, 0, 0, 0, 0],
      [0, 0, 1, 0, 1, 0, 0, 1, 0, 0, 0, 0],
      [0, 0, 0, 1, 0, 0, 0, 1, 0, 0, 1, 0],
      [0, 0, 0, 0, 0, 0, 1, 0, 0, 0, 0, 0],
      [0, 1, 0, 0, 0, 0, 0, 0, 0, 0, 0, 0],
      [0, 1, 1, 0, 0, 0, 0, 0, 0, 0, 0, 0],
      [0, 0, 0, 0, 0, 0, 0, 0, 0, 1, 0, 0],
      [0, 0, 0, 1, 0, 0, 0, 0, 1, 0, 1, 0],
      [0, 0, 0, 0, 0, 1, 0, 0, 0, 0, 0, 0],
      [0, 1, 0, 0, 0, 1, 1, 0, 0, 0, 0, 0],
      [0, 0, 0, 1, 0, 0, 0, 0, 0, 0, 1, 0],
      [0, 0, 0, 0, 0, 0, 0, 0, 0, 0, 0, 0]
  ]

  // ---------------------------------------------------------------------------
  // The adjacent count as eight explicit terms
  // ---------------------------------------------------------------------------

  /** Whether the in-bounds cell c lies in s, as 1 or 0. */
  function Member(c: Cell, s: set<Cell>, width: nat, height: nat): nat {
    if InBounds(c, width, height) && c in s then 1 else 0
  }

  /** The sum of the values from position k on. */
  function SumFrom(values: seq<int>, k: nat): int
    requires k <= |values|
    decreases |values| - k
  {
    if k == |values| then 0 else values[k] + SumFrom(values, k + 1)
  }

  /** When each direction's term of the count is given, the count is their sum. */
  lemma {:induction false} CountFromValues(c: Cell, s: set<Cell>, width: nat, height: nat, values: seq<int>, k: nat)
    requires |values| == |Directions| && k <= |Directions|
    requires forall j :: k <= j < |Directions| ==> Member(Step(c, j), s, width, height) == values[j]
    ensures CountFrom(c, s, width, height, k) == SumFrom(values, k)
    decreases |Directions| - k
  {
    if k < |Directions| {
      CountFromValues(c, s, width, height, values, k + 1);
    }
  }

  /**
   * With a mask that marks the mines of a board and has a border of zeros
   * (entry [a + 1][b + 1] stands for cell (a, b)), the adjacent-mine count
   * of a cell is the sum of the eight mask entries around its own entry.
   */
  lemma MaskedCount(s: set<Cell>, width: nat, height: nat, mask: seq<seq<int>>, x: nat, y: nat)
    requires x < width && y < height
    requires |mask| == width + 2 && forall a :: 0 <= a < width + 2 ==> |mask[a]| == height + 2
    requires forall a, b :: -1 <= a <= width && -1 <= b <= height ==>
      Member((a, b), s, width, height) == mask[a + 1][b + 1]
    ensures CountAdjacent((x, y), s, width, height) ==
      mask[x][y] + mask[x + 1][y] + mask[x + 2][y] + mask[x][y + 1]
      + mask[x + 2][y + 1] + mask[x][y + 2] + mask[x + 1][y + 2] + mask[x + 2][y + 2]
  {
    var values := [mask[x][y], mask[x + 1][y], mask[x + 2][y], mask[x][y + 1],
                   mask[x + 2][y + 1], mask[x][y + 2], mask[x + 1][y + 2], mask[x + 2][y + 2]];
    forall j | 0 <= j < |Directions| ensures Member(Step((x, y), j), s, width, height) == values[j] {
      var n := Step((x, y), j);
      assert Member(n, s, width, height) == mask[n.0 + 1][n.1 + 1];
    }
    CountFromValues((x, y), s, width, height, values, 0);
    assert SumFrom(values, 8) == 0;
    assert SumFrom(values, 7) == values[7];
    assert SumFrom(values, 6) == values[6] + values[7];
    assert SumFrom(values, 5) == values[5] + values[6] + values[7];
    assert SumFrom(values, 4) == values[4] + values[5] + values[6] + values[7];
    assert SumFrom(values, 3) == values[3] + values[4] + values[5] + values[6] + values[7];
    assert SumFrom(values, 2) == values[2] + values[3] + values[4] + values[5] + values[6] + values[7];
    assert SumFrom(values, 1) == values[1] + values[2] + values[3] + values[4] + values[5] + values[6] + values[7];
  }

  // ---------------------------------------------------------------------------
  // The mine count, column by column
  // ---------------------------------------------------------------------------

  /** The number of mines among the first `n` cells of a column. */
  function MinesIn(column: seq<CellType>, n: nat): nat
    requires n <= |column|
  {
    if n == 0 then 0 else MinesIn(column, n - 1) + (if column[n - 1] == Mine then 1 else 0)
  }

  /** The mines in the columns left of `k`. */
  ghost function MinesLeftOf(g: Grid, width: nat, height: nat, k: nat): set<Cell>
    requires IsGrid(g, width, height) && k <= width
  {
    set x, y | 0 <= x < k && 0 <= y < height && g[x][y] == Mine :: (x, y)
  }

  /** The mines in the first `n` rows of column `x`. */
  ghost function ColumnMines(g: Grid, width: nat, height: nat, x: nat, n: nat): set<Cell>
    requires IsGrid(g, width, height) && x < width && n <= height
  {
    set y | 0 <= y < n && g[x][y] == Mine :: (x, y)
  }

  /** The mines of a column, counted cell by cell. */
  lemma {:induction false} ColumnMinesCount(g: Grid, width: nat, height: nat, x: nat, n: nat)
    requires IsGrid(g, width, height) && x < width && n <= height
    ensures |ColumnMines(g, width, height, x, n)| == MinesIn(g[x], n)
  {
    if n > 0 {
      ColumnMinesCount(g, width, height, x, n - 1);
      if g[x][n - 1] == Mine {
        assert ColumnMines(g, width, height, x, n) == ColumnMines(g, width, height, x, n - 1) + {(x, n - 1)};
      } else {
        assert ColumnMines(g, width, height, x, n) == ColumnMines(g, width, height, x, n - 1);
      }
    } else {
      assert ColumnMines(g, width, height, x, n) == {};
    }
  }

  /** Taking in column `k` adds its mines. */
  lemma MinesLeftOfNext(g: Grid, width: nat, height: nat, k: nat)
    requires IsGrid(g, width, height) && k < width
    ensures |MinesLeftOf(g, width, height, k + 1)| == |MinesLeftOf(g, width, height, k)| + MinesIn(g[k], height)
  {
    ColumnMinesCount(g, width, height, k, height);
    var left, column := MinesLeftOf(g, width, height, k), ColumnMines(g, width, height, k, height);
    assert MinesLeftOf(g, width, height, k + 1) == left + column;
    assert left * column == {};
  }

  /** The first zero columns hold no mine; all the columns hold every mine. */
  lemma MinesLeftOfEnds(g: Grid, width: nat, height: nat)
    requires IsGrid(g, width, height)
    ensures MinesLeftOf(g, width, height, 0) == {}
    ensures MinesLeftOf(g, width, height, width) == MineCells(g, width, height)
  {
  }

  /** The sum of a sequence of counts. */
  function Total(counts: seq<nat>): nat {
    if |counts| == 0 then 0 else Total(counts[..|counts| - 1]) + counts[|counts| - 1]
  }

  /** The columns left of `k` hold the sum of the first `k` counts. */
  lemma {:induction false} MinesLeftOfTotal(g: Grid, width: nat, height: nat, counts: seq<nat>, k: nat)
    requires IsGrid(g, width, height) && |counts| == width && k <= width
    requires forall x :: 0 <= x < width ==> MinesIn(g[x], height) == counts[x]
    ensures |MinesLeftOf(g, width, height, k)| == Total(counts[..k])
  {
    if k == 0 {
      MinesLeftOfEnds(g, width, height);
    } else {
      MinesLeftOfTotal(g, width, height, counts, k - 1);
      MinesLeftOfNext(g, width, height, k - 1);
      assert counts[..k][..k - 1] == counts[..k - 1];
    }
  }

  /** A board holds as many mines as its columns add up to. */
  lemma MineCellsTotal(g: Grid, width: nat, height: nat, counts: seq<nat>)
    requires IsGrid(g, width, height) && |counts| == width
    requires forall x :: 0 <= x < width ==> MinesIn(g[x], height) == counts[x]
    ensures |MineCells(g, width, height)| == Total(counts)
  {
    MinesLeftOfTotal(g, width, height, counts, width);
    MinesLeftOfEnds(g, width, height);
    assert counts[..width] == counts;
  }

  // ---------------------------------------------------------------------------
  // The fixture board
  // ---------------------------------------------------------------------------

  /** The mask marks exactly the mines of the board. */
  lemma SmallMaskMarksMines()
    ensures IsGrid(SmallBoard, 10, 10)
    ensures |SmallMask| == 12 && forall a :: 0 <= a < 12 ==> |SmallMask[a]| == 12
    ensures forall a, b :: -1 <= a <= 10 && -1 <= b <= 10 ==>
      Member((a, b), MineCells(SmallBoard, 10, 10), 10, 10) == SmallMask[a + 1][b + 1]
  {
    forall a, b | -1 <= a <= 10 && -1 <= b <= 10
      ensures Member((a, b), MineCells(SmallBoard, 10, 10), 10, 10) == SmallMask[a + 1][b + 1]
    {
      assert a == -1 || a == 0 || a == 1 || a == 2 || a == 3 || a == 4 || a == 5 || a == 6 || a == 7 || a == 8 || a == 9 || a == 10;
      assert b == -1 || b == 0 || b == 1 || b == 2 || b == 3 || b == 4 || b == 5 || b == 6 || b == 7 || b == 8 || b == 9 || b == 10;
    }
  }

  /** The mines around (x, y), read off the mask. */
  function MaskSum(x: int, y: int): int
    requires 0 <= x < 10 && 0 <= y < 10
  {
    SmallMask[x][y] + SmallMask[x + 1][y] + SmallMask[x + 2][y] + SmallMask[x][y + 1]
    + SmallMask[x + 2][y + 1] + SmallMask[x][y + 2] + SmallMask[x + 1][y + 2] + SmallMask[x + 2][y + 2]
  }

  /** The digits of column 0 agree with the mask. */
  lemma SmallDigits0()
    ensures forall y :: 0 <= y < 10 && SmallBoard[0][y] != Mine ==>
      AdjacentMineCount(SmallBoard[0][y]) == MaskSum(0, y)
  {
    forall y | 0 <= y < 10
      ensures SmallBoard[0][y] != Mine ==> AdjacentMineCount(SmallBoard[0][y]) == MaskSum(0, y)
    {
      if y == 0 {
      } else if y == 1 {
      } else if y == 2 {
      } else if y == 3 {
      } else if y == 4 {
      } else if y == 5 {
      } else if y == 6 {
      } else if y == 7 {
      } else if y == 8 {
      } else {
        assert y == 9;
      }
    }
  }

  /** The digits of column 1 agree with the mask. */
  lemma SmallDigits1()
    ensures forall y :: 0 <= y < 10 && SmallBoard[1][y] != Mine ==>
      AdjacentMineCount(SmallBoard[1][y]) == MaskSum(1, y)
  {
    forall y | 0 <= y < 10
      ensures SmallBoard[1][y] != Mine ==> AdjacentMineCount(SmallBoard[1][y]) == MaskSum(1, y)
    {
      if y == 0 {
      } else if y == 1 {
      } else if y == 2 {
      } else if y == 3 {
      } else if y == 4 {
      } else if y == 5 {
      } else if y == 6 {
      } else if y == 7 {
      } else if y == 8 {
      } else {
        assert y == 9;
      }
    }
  }

  /** The digits of column 2 agree with the mask. */
  lemma SmallDigits2()
    ensures forall y :: 0 <= y < 10 && SmallBoard[2][y] != Mine ==>
      AdjacentMineCount(SmallBoard[2][y]) == MaskSum(2, y)
  {
    forall y | 0 <= y < 10
      ensures SmallBoard[2][y] != Mine ==> AdjacentMineCount(SmallBoard[2][y]) == MaskSum(2, y)
    {
      if y == 0 {
      } else if y == 1 {
      } else if y == 2 {
      } else if y == 3 {
      } else if y == 4 {
      } else if y == 5 {
      } else if y == 6 {
      } else if y == 7 {
      } else if y == 8 {
      } else {
        assert y == 9;
      }
    }
  }

  /** The digits of column 3 agree with the mask. */
  lemma SmallDigits3()
    ensures forall y :: 0 <= y < 10 && SmallBoard[3][y] != Mine ==>
      AdjacentMineCount(SmallBoard[3][y]) == MaskSum(3, y)
  {
    forall y | 0 <= y < 10
      ensures SmallBoard[3][y] != Mine ==> AdjacentMineCount(SmallBoard[3][y]) == MaskSum(3, y)
    {
      if y == 0 {
      } else if y == 1 {
      } else if y == 2 {
      } else if y == 3 {
      } else if y == 4 {
      } else if y == 5 {
      } else if y == 6 {
      } else if y == 7 {
      } else if y == 8 {
      } else {
        assert y == 9;
      }
    }
  }

  /** The digits of column 4 agree with the mask. */
  lemma SmallDigits4()
    ensures forall y :: 0 <= y < 10 && SmallBoard[4][y] != Mine ==>
      AdjacentMineCount(SmallBoard[4][y]) == MaskSum(4, y)
  {
    forall y | 0 <= y < 10
      ensures SmallBoard[4][y] != Mine ==> AdjacentMineCount(SmallBoard[4][y]) == MaskSum(4, y)
    {
      if y == 0 {
      } else if y == 1 {
      } else if y == 2 {
      } else if y == 3 {
      } else if y == 4 {
      } else if y == 5 {
      } else if y == 6 {
      } else if y == 7 {
      } else if y == 8 {
      } else {
        assert y == 9;
      }
    }
  }

  /** The digits of column 5 agree with the mask. */
  lemma SmallDigits5()
    ensures forall y :: 0 <= y < 10 && SmallBoard[5][y] != Mine ==>
      AdjacentMineCount(SmallBoard[5][y]) == MaskSum(5, y)
  {
    forall y | 0 <= y < 10
      ensures SmallBoard[5][y] != Mine ==> AdjacentMineCount(SmallBoard[5][y]) == MaskSum(5, y)
    {
      if y == 0 {
      } else if y == 1 {
      } else if y == 2 {
      } else if y == 3 {
      } else if y == 4 {
      } else if y == 5 {
      } else if y == 6 {
      } else if y == 7 {
      } else if y == 8 {
      } else {
        assert y == 9;
      }
    }
  }

  /** The digits of column 6 agree with the mask. */
  lemma SmallDigits6()
    ensures forall y :: 0 <= y < 10 && SmallBoard[6][y] != Mine ==>
      AdjacentMineCount(SmallBoard[6][y]) == MaskSum(6, y)
  {
    forall y | 0 <= y < 10
      ensures SmallBoard[6][y] != Mine ==> AdjacentMineCount(SmallBoard[6][y]) == MaskSum(6, y)
    {
      if y == 0 {
      } else if y == 1 {
      } else if y == 2 {
      } else if y == 3 {
      } else if y == 4 {
      } else if y == 5 {
      } else if y == 6 {
      } else if y == 7 {
      } else if y == 8 {
      } else {
        assert y == 9;
      }
    }
  }

  /** The digits of column 7 agree with the mask. */
  lemma SmallDigits7()
    ensures forall y :: 0 <= y < 10 && SmallBoard[7][y] != Mine ==>
      AdjacentMineCount(SmallBoard[7][y]) == MaskSum(7, y)
  {
    forall y | 0 <= y < 10
      ensures SmallBoard[7][y] != Mine ==> AdjacentMineCount(SmallBoard[7][y]) == MaskSum(7, y)
    {
      if y == 0 {
      } else if y == 1 {
      } else if y == 2 {
      } else if y == 3 {
      } else if y == 4 {
      } else if y == 5 {
      } else if y == 6 {
      } else if y == 7 {
      } else if y == 8 {
      } else {
        assert y == 9;
      }
    }
  }

  /** The digits of column 8 agree with the mask. */
  lemma SmallDigits8()
    ensures forall y :: 0 <= y < 10 && SmallBoard[8][y] != Mine ==>
      AdjacentMineCount(SmallBoard[8][y]) == MaskSum(8, y)
  {
    forall y | 0 <= y < 10
      ensures SmallBoard[8][y] != Mine ==> AdjacentMineCount(SmallBoard[8][y]) == MaskSum(8, y)
    {
      if y == 0 {
      } else if y == 1 {
      } else if y == 2 {
      } else if y == 3 {
      } else if y == 4 {
      } else if y == 5 {
      } else if y == 6 {
      } else if y == 7 {
      } else if y == 8 {
      } else {
        assert y == 9;
      }
    }
  }

  /** The digits of column 9 agree with the mask. */
  lemma SmallDigits9()
    ensures forall y :: 0 <= y < 10 && SmallBoard[9][y] != Mine ==>
      AdjacentMineCount(SmallBoard[9][y]) == MaskSum(9, y)
  {
    forall y | 0 <= y < 10
      ensures SmallBoard[9][y] != Mine ==> AdjacentMineCount(SmallBoard[9][y]) == MaskSum(9, y)
    {
      if y == 0 {
      } else if y == 1 {
      } else if y == 2 {
      } else if y == 3 {
      } else if y == 4 {
      } else if y == 5 {
      } else if y == 6 {
      } else if y == 7 {
      } else if y == 8 {
      } else {
        assert y == 9;
      }
    }
  }

  /** On the board, the adjacent-mine count is the sum read off the mask. */
  lemma SmallCountIsMaskSum(x: int, y: int)
    requires 0 <= x < 10 && 0 <= y < 10
    ensures IsGrid(SmallBoard, 10, 10)
    ensures AdjacentMines(SmallBoard, 10, 10, x, y) == MaskSum(x, y)
  {
    SmallMaskMarksMines();
    MaskedCount(MineCells(SmallBoard, 10, 10), 10, 10, SmallMask, x, y);
  }

  /** Every digit of the board is its number of adjacent mines. */
  lemma SmallCounts()
    ensures IsGrid(SmallBoard, 10, 10)
    ensures CountsCorrect(SmallBoard, 10, 10)
  {
    forall x, y | 0 <= x < 10 && 0 <= y < 10
      ensures SmallBoard[x][y] != Mine ==> AdjacentMineCount(SmallBoard[x][y]) == AdjacentMines(SmallBoard, 10, 10, x, y)
    {
      SmallCountIsMaskSum(x, y);
      if x == 0 {
        SmallDigits0();
      } else if x == 1 {
        SmallDigits1();
      } else if x == 2 {
        SmallDigits2();
      } else if x == 3 {
        SmallDigits3();
      } else if x == 4 {
        SmallDigits4();
      } else if x == 5 {
        SmallDigits5();
      } else if x == 6 {
        SmallDigits6();
      } else if x == 7 {
        SmallDigits7();
      } else if x == 8 {
        SmallDigits8();
      } else {
        assert x == 9;
        SmallDigits9();
      }
    }
  }

  /** The mines of the board are the twenty listed cells. */
  lemma SmallMineCells()
    ensures IsGrid(SmallBoard, 10, 10)
    ensures MineCells(SmallBoard, 10, 10) == SmallMines
  {
    forall c | c in MineCells(SmallBoard, 10, 10) ensures c in SmallMines {
      var x, y := c.0, c.1;
      assert x == 0 || x == 1 || x == 2 || x == 3 || x == 4 || x == 5 || x == 6 || x == 7 || x == 8 || x == 9;
      assert y == 0 || y == 1 || y == 2 || y == 3 || y == 4 || y == 5 || y == 6 || y == 7 || y == 8 || y == 9;
    }
  }

  /** The mines of column 0. */
  lemma SmallColumnMines0()
    ensures MinesIn(SmallBoard[0], 10) == 3
  {
    var column := SmallBoard[0];
    assert column == [One, Mine, Three, Mine, One, Two, Mine, Two, One, One];
    assert MinesIn(column, 1) == 0;
    assert MinesIn(column, 2) == 1;
    assert MinesIn(column, 3) == 1;
    assert MinesIn(column, 4) == 2;
    assert MinesIn(column, 5) == 2;
    assert MinesIn(column, 6) == 2;
    assert MinesIn(column, 7) == 3;
    assert MinesIn(column, 8) == 3;
    assert MinesIn(column, 9) == 3;
    assert MinesIn(column, 10) == 3;
  }

  /** The mines of column 1. */
  lemma SmallColumnMines1()
    ensures MinesIn(SmallBoard[1], 10) == 3
  {
    var column := SmallBoard[1];
    assert column == [One, Two, Mine, Two, Two, Three, Mine, Two, One, Mine];
    assert MinesIn(column, 1) == 0;
    assert MinesIn(column, 2) == 0;
    assert MinesIn(column, 3) == 1;
    assert MinesIn(column, 4) == 1;
    assert MinesIn(column, 5) == 1;
    assert MinesIn(column, 6) == 1;
    assert MinesIn(column, 7) == 2;
    assert MinesIn(column, 8) == 2;
    assert MinesIn(column, 9) == 2;
    assert MinesIn(column, 10) == 3;
  }

  /** The mines of column 2. */
  lemma SmallColumnMines2()
    ensures MinesIn(SmallBoard[2], 10) == 1
  {
    var column := SmallBoard[2];
    assert column == [One, Two, One, One, One, Mine, Two, One, One, One];
    assert MinesIn(column, 1) == 0;
    assert MinesIn(column, 2) == 0;
    assert MinesIn(column, 3) == 0;
    assert MinesIn(column, 4) == 0;
    assert MinesIn(column, 5) == 0;
    assert MinesIn(column, 6) == 1;
    assert MinesIn(column, 7) == 1;
    assert MinesIn(column, 8) == 1;
    assert MinesIn(column, 9) == 1;
    assert MinesIn(column, 10) == 1;
  }

  /** The mines of column 3. */
  lemma SmallColumnMines3()
    ensures MinesIn(SmallBoard[3], 10) == 1
  {
    var column := SmallBoard[3];
    assert column == [Mine, Three, One, Empty, One, One, One, Empty, Empty, Empty];
    assert MinesIn(column, 1) == 1;
    assert MinesIn(column, 2) == 1;
    assert MinesIn(column, 3) == 1;
    assert MinesIn(column, 4) == 1;
    assert MinesIn(column, 5) == 1;
    assert MinesIn(column, 6) == 1;
    assert MinesIn(column, 7) == 1;
    assert MinesIn(column, 8) == 1;
    assert MinesIn(column, 9) == 1;
    assert MinesIn(column, 10) == 1;
  }

  /** The mines of column 4. */
  lemma SmallColumnMines4()
    ensures MinesIn(SmallBoard[4], 10) == 2
  {
    var column := SmallBoard[4];
    assert column == [Mine, Mine, One, Empty, Empty, Empty, Empty, One, One, One];
    assert MinesIn(column, 1) == 1;
    assert MinesIn(column, 2) == 2;
    assert MinesIn(column, 3) == 2;
    assert MinesIn(column, 4) == 2;
    assert MinesIn(column, 5) == 2;
    assert MinesIn(column, 6) == 2;
    assert MinesIn(column, 7) == 2;
    assert MinesIn(column, 8) == 2;
    assert MinesIn(column, 9) == 2;
    assert MinesIn(column, 10) == 2;
  }

  /** The mines of column 5. */
  lemma SmallColumnMines5()
    ensures MinesIn(SmallBoard[5], 10) == 1
  {
    var column := SmallBoard[5];
    assert column == [Two, Three, Two, One, Empty, Empty, One, Two, Mine, Two];
    assert MinesIn(column, 1) == 0;
    assert MinesIn(column, 2) == 0;
    assert MinesIn(column, 3) == 0;
    assert MinesIn(column, 4) == 0;
    assert MinesIn(column, 5) == 0;
    assert MinesIn(column, 6) == 0;
    assert MinesIn(column, 7) == 0;
    assert MinesIn(column, 8) == 0;
    assert MinesIn(column, 9) == 1;
    assert MinesIn(column, 10) == 1;
  }

  /** The mines of column 6. */
  lemma SmallColumnMines6()
    ensures MinesIn(SmallBoard[6], 10) == 3
  {
    var column := SmallBoard[6];
    assert column == [Empty, One, Mine, Two, One, One, One, Mine, Three, Mine];
    assert MinesIn(column, 1) == 0;
    assert MinesIn(column, 2) == 0;
    assert MinesIn(column, 3) == 1;
    assert MinesIn(column, 4) == 1;
    assert MinesIn(column, 5) == 1;
    assert MinesIn(column, 6) == 1;
    assert MinesIn(column, 7) == 1;
    assert MinesIn(column, 8) == 2;
    assert MinesIn(column, 9) == 2;
    assert MinesIn(column, 10) == 3;
  }

  /** The mines of column 7. */
  lemma SmallColumnMines7()
    ensures MinesIn(SmallBoard[7], 10) == 1
  {
    var column := SmallBoard[7];
    assert column == [One, Two, One, Three, Mine, Three, Two, One, Two, One];
    assert MinesIn(column, 1) == 0;
    assert MinesIn(column, 2) == 0;
    assert MinesIn(column, 3) == 0;
    assert MinesIn(column, 4) == 0;
    assert MinesIn(column, 5) == 1;
    assert MinesIn(column, 6) == 1;
    assert MinesIn(column, 7) == 1;
    assert MinesIn(column, 8) == 1;
    assert MinesIn(column, 9) == 1;
    assert MinesIn(column, 10) == 1;
  }

  /** The mines of column 8. */
  lemma SmallColumnMines8()
    ensures MinesIn(SmallBoard[8], 10) == 3
  {
    var column := SmallBoard[8];
    assert column == [Mine, Two, One, Three, Mine, Mine, One, Empty, One, One];
    assert MinesIn(column, 1) == 1;
    assert MinesIn(column, 2) == 1;
    assert MinesIn(column, 3) == 1;
    assert MinesIn(column, 4) == 1;
    assert MinesIn(column, 5) == 2;
    assert MinesIn(column, 6) == 3;
    assert MinesIn(column, 7) == 3;
    assert MinesIn(column, 8) == 3;
    assert MinesIn(column, 9) == 3;
    assert MinesIn(column, 10) == 3;
  }

  /** The mines of column 9. */
  lemma SmallColumnMines9()
    ensures MinesIn(SmallBoard[9], 10) == 2
  {
    var column := SmallBoard[9];
    assert column == [One, Two, Mine, Two, Two, Two, One, Empty, One, Mine];
    assert MinesIn(column, 1) == 0;
    assert MinesIn(column, 2) == 0;
    assert MinesIn(column, 3) == 1;
    assert MinesIn(column, 4) == 1;
    assert MinesIn(column, 5) == 1;
    assert MinesIn(column, 6) == 1;
    assert MinesIn(column, 7) == 1;
    assert MinesIn(column, 8) == 1;
    assert MinesIn(column, 9) == 1;
    assert MinesIn(column, 10) == 2;
  }

  /** The column counts add up to twenty. */
  lemma SmallColumnTotal()
    ensures Total([3, 3, 1, 1, 2, 1, 3, 1, 3, 2]) == 20
  {
    var counts := [3, 3, 1, 1, 2, 1, 3, 1, 3, 2];
    assert Total(counts[..1]) == 3;
    assert counts[..2][..1] == counts[..1];
    assert Total(counts[..2]) == 6;
    assert counts[..3][..2] == counts[..2];
    assert Total(counts[..3]) == 7;
    assert counts[..4][..3] == counts[..3];
    assert Total(counts[..4]) == 8;
    assert counts[..5][..4] == counts[..4];
    assert Total(counts[..5]) == 10;
    assert counts[..6][..5] == counts[..5];
    assert Total(counts[..6]) == 11;
    assert counts[..7][..6] == counts[..6];
    assert Total(counts[..7]) == 14;
    assert counts[..8][..7] == counts[..7];
    assert Total(counts[..8]) == 15;
    assert counts[..9][..8] == counts[..8];
    assert Total(counts[..9]) == 18;
    assert counts[..10][..9] == counts[..9];
    assert Total(counts[..10]) == 20;
    assert counts[..10] == counts;
  }

  /** The board holds twenty mines. */
  lemma SmallMineCount()
    ensures IsGrid(SmallBoard, 10, 10)
    ensures |MineCells(SmallBoard, 10, 10)| == 20
  {
    assert IsGrid(SmallBoard, 10, 10);
    var counts := [3, 3, 1, 1, 2, 1, 3, 1, 3, 2];
    forall x | 0 <= x < 10
      ensures MinesIn(SmallBoard[x], 10) == counts[x]
    {
      if x == 0 {
        SmallColumnMines0();
      } else if x == 1 {
        SmallColumnMines1();
      } else if x == 2 {
        SmallColumnMines2();
      } else if x == 3 {
        SmallColumnMines3();
      } else if x == 4 {
        SmallColumnMines4();
      } else if x == 5 {
        SmallColumnMines5();
      } else if x == 6 {
        SmallColumnMines6();
      } else if x == 7 {
        SmallColumnMines7();
      } else if x == 8 {
        SmallColumnMines8();
      } else {
        assert x == 9;
        SmallColumnMines9();
      }
    }
    MineCellsTotal(SmallBoard, 10, 10, counts);
    SmallColumnTotal();
  }

  /** No mine lies in the block of columns and rows 4 to 6. */
  lemma SmallProtected()
    ensures IsGrid(SmallBoard, 10, 10)
    ensures NoMineInProtectedBlock(SmallBoard, 10, 10)
  {
    SmallMineCells();
    assert CalcProtectedRange(10) == (4, 6);
  }

  /**
   * The board is one that generation can produce for a 10 × 10 HARD game:
   * correct digits, HARD's mine count and no mine in the protected block.
   */
  lemma SmallBoardWellFormed()
    ensures WellFormed(SmallBoard, 10, 10, Hard.CalcMineCount(10, 10))
  {
    SmallCounts();
    SmallMineCount();
    SmallProtected();
    assert Hard.CalcMineCount(10, 10) == 20;
  }

  /**
   * Some draws generate the board: the twenty mine cells themselves, taken in
   * any order, are all admissible, so placement puts exactly them down.
   */
  lemma SmallBoardGenerated()
    ensures exists draws :: DrawsInBounds(draws, 10, 10) && Generate(10, 10, Hard.CalcMineCount(10, 10), draws) == SmallBoard
  {
    SmallBoardWellFormed();
    var mines := MineCells(SmallBoard, 10, 10);
    var draws := Enumerate(mines);
    assert DrawsInBounds(draws, 10, 10) by {
      forall i | 0 <= i < |draws| ensures InBounds(draws[i], 10, 10) {
        assert draws[i] in mines;
      }
    }
    assert AdmissibleDrawn(draws, 10, 10) == mines by {
      forall c | c in mines ensures c in AdmissibleDrawn(draws, 10, 10) {
        var i :| 0 <= i < |draws| && draws[i] == c;
      }
    }
    GenerateFromMines(SmallBoard, 10, 10, Hard.CalcMineCount(10, 10), draws);
  }

  /** The upper rows of the board, as drawn. */
  lemma SmallRowsTop()
    ensures IsGrid(SmallBoard, 10, 10)
    ensures Row(SmallBoard, 10, 10, 0) == "111**2O1*1"
    ensures Row(SmallBoard, 10, 10, 1) == "*223*31222"
    ensures Row(SmallBoard, 10, 10, 2) == "3*1112*11*"
    ensures Row(SmallBoard, 10, 10, 3) == "*21OO12332"
    ensures Row(SmallBoard, 10, 10, 4) == "1211OO1**2"
  {
  }

  /** The lower rows of the board, as drawn. */
  lemma SmallRowsBottom()
    ensures IsGrid(SmallBoard, 10, 10)
    ensures Row(SmallBoard, 10, 10, 5) == "23*1OO13*2"
    ensures Row(SmallBoard, 10, 10, 6) == "**21O11211"
    ensures Row(SmallBoard, 10, 10, 7) == "221O12*1OO"
    ensures Row(SmallBoard, 10, 10, 8) == "111O1*3211"
    ensures Row(SmallBoard, 10, 10, 9) == "1*1O12*11*"
  {
  }

  /** The expected text is the rendering of that board. */
  lemma SmallBoardRendering()
    ensures IsGrid(SmallBoard, 10, 10)
    ensures Ascii(SmallBoard, 10, 10) == SmallText
  {
    SmallRowsTop();
    SmallRowsBottom();
    assert RowsUpTo(SmallBoard, 10, 10, 1) == RowsUpTo(SmallBoard, 10, 10, 0) + Row(SmallBoard, 10, 10, 0) + "\n";
    assert RowsUpTo(SmallBoard, 10, 10, 2) == RowsUpTo(SmallBoard, 10, 10, 1) + Row(SmallBoard, 10, 10, 1) + "\n";
    assert RowsUpTo(SmallBoard, 10, 10, 3) == RowsUpTo(SmallBoard, 10, 10, 2) + Row(SmallBoard, 10, 10, 2) + "\n";
    assert RowsUpTo(SmallBoard, 10, 10, 4) == RowsUpTo(SmallBoard, 10, 10, 3) + Row(SmallBoard, 10, 10, 3) + "\n";
    assert RowsUpTo(SmallBoard, 10, 10, 5) == RowsUpTo(SmallBoard, 10, 10, 4) + Row(SmallBoard, 10, 10, 4) + "\n";
    assert RowsUpTo(SmallBoard, 10, 10, 6) == RowsUpTo(SmallBoard, 10, 10, 5) + Row(SmallBoard, 10, 10, 5) + "\n";
    assert RowsUpTo(SmallBoard, 10, 10, 7) == RowsUpTo(SmallBoard, 10, 10, 6) + Row(SmallBoard, 10, 10, 6) + "\n";
    assert RowsUpTo(SmallBoard, 10, 10, 8) == RowsUpTo(SmallBoard, 10, 10, 7) + Row(SmallBoard, 10, 10, 7) + "\n";
    assert RowsUpTo(SmallBoard, 10, 10, 9) == RowsUpTo(SmallBoard, 10, 10, 8) + Row(SmallBoard, 10, 10, 8) + "\n";
    assert RowsUpTo(SmallBoard, 10, 10, 10) == RowsUpTo(SmallBoard, 10, 10, 9) + Row(SmallBoard, 10, 10, 9) + "";
  }
}
