/**
 * The value-level description of board generation: which cells receive mines
 * for a given draw sequence, and what number every other cell shows.
 */
module Board {

  import opened CellTypes
  import opened Adjacency

  /** A board as columns of cells: `g[x][y]` is the cell in column x, row y. */
  type Grid = seq<seq<CellType>>

  predicate IsGrid(g: Grid, width: nat, height: nat) {
    |g| == width && forall x :: 0 <= x < width ==> |g[x]| == height
  }

  /** Two boards of the same shape that agree cell by cell are equal. */
  lemma GridExtensionality(g1: Grid, g2: Grid, width: nat, height: nat)
    requires IsGrid(g1, width, height) && IsGrid(g2, width, height)
    requires forall x, y :: 0 <= x < width && 0 <= y < height ==> g1[x][y] == g2[x][y]
    ensures g1 == g2
  {
    forall x | 0 <= x < width ensures g1[x] == g2[x] {
      assert forall y :: 0 <= y < height ==> g1[x][y] == g2[x][y];
    }
  }

  /** The coordinates that hold a mine. */
  function MineCells(g: Grid, width: nat, height: nat): (r: set<Cell>)
    requires IsGrid(g, width, height)
    ensures forall c :: c in r <==> InBounds(c, width, height) && g[c.0][c.1] == Mine
  {
    set x, y | 0 <= x < width && 0 <= y < height && g[x][y] == Mine :: (x, y)
  }

  /** Number of mines among the in-bounds neighbours of (x, y). */
  function AdjacentMines(g: Grid, width: nat, height: nat, x: int, y: int): (r: nat)
    requires IsGrid(g, width, height)
  {
    CountAdjacent((x, y), MineCells(g, width, height), width, height)
  }

  // ---------------------------------------------------------------------------
  // The protected block in the middle of the board
  // ---------------------------------------------------------------------------

  /** The three positions around the middle of an axis: side/2 - 1 to side/2 + 1. */
  function CalcProtectedRange(side: nat): (r: (int, int))
    ensures r.1 == r.0 + 2
    ensures side >= 3 ==> 0 <= r.0 && r.1 < side
    ensures side - r.1 - 1 <= r.0 <= side - r.1
  {
    (side / 2 - 1, side / 2 + 1)
  }

  predicate InProtectedBlock(c: Cell, width: nat, height: nat) {
    var xs := CalcProtectedRange(width);
    var ys := CalcProtectedRange(height);
    xs.0 <= c.0 <= xs.1 && ys.0 <= c.1 <= ys.1
  }

  /** A cell that may receive a mine. */
  predicate Admissible(c: Cell, width: nat, height: nat) {
    InBounds(c, width, height) && !InProtectedBlock(c, width, height)
  }

  // ---------------------------------------------------------------------------
  // Mine placement by rejection sampling
  // ---------------------------------------------------------------------------

  /** Every draw lies on the board, as the random generator's bounded draws do. */
  predicate DrawsInBounds(draws: seq<Cell>, width: nat, height: nat) {
    forall i :: 0 <= i < |draws| ==> InBounds(draws[i], width, height)
  }

  /**
   * The mines placed when the draws are taken in order, starting from `mines`:
   * a draw inside the protected block or on a mine is skipped, and placement
   * stops once `mineCount` mines are down or the draws run out.
   */
  function PlaceMinesFrom(draws: seq<Cell>, width: nat, height: nat, mineCount: int, mines: set<Cell>): set<Cell>
    decreases |draws|
  {
    if |mines| >= mineCount || |draws| == 0 then mines
    else if InProtectedBlock(draws[0], width, height) || draws[0] in mines then
      PlaceMinesFrom(draws[1..], width, height, mineCount, mines)
    else
      PlaceMinesFrom(draws[1..], width, height, mineCount, mines + {draws[0]})
  }

  /** The mines placed on an empty board. */
  function PlacedMines(draws: seq<Cell>, width: nat, height: nat, mineCount: int): set<Cell> {
    PlaceMinesFrom(draws, width, height, mineCount, {})
  }

  /** The admissible cells that occur among the draws. */
  ghost function AdmissibleDrawn(draws: seq<Cell>, width: nat, height: nat): set<Cell> {
    set i | 0 <= i < |draws| && Admissible(draws[i], width, height) :: draws[i]
  }

  /** The draws offer at least `mineCount` distinct admissible cells. */
  ghost predicate EnoughDraws(draws: seq<Cell>, width: nat, height: nat, mineCount: int) {
    |AdmissibleDrawn(draws, width, height)| >= mineCount
  }

  function Min(a: int, b: int): int {
    if a <= b then a else b
  }

  lemma AdmissibleDrawnCons(draws: seq<Cell>, width: nat, height: nat)
    requires |draws| > 0
    ensures AdmissibleDrawn(draws, width, height) ==
            (if Admissible(draws[0], width, height) then {draws[0]} else {}) + AdmissibleDrawn(draws[1..], width, height)
  {
    var rest := draws[1..];
    forall c | c in AdmissibleDrawn(draws, width, height)
      ensures c in (if Admissible(draws[0], width, height) then {draws[0]} else {}) + AdmissibleDrawn(rest, width, height)
    {
      var i :| 0 <= i < |draws| && Admissible(draws[i], width, height) && draws[i] == c;
      if i > 0 {
        assert rest[i - 1] == c;
      }
    }
    forall c | c in AdmissibleDrawn(rest, width, height)
      ensures c in AdmissibleDrawn(draws, width, height)
    {
      var i :| 0 <= i < |rest| && Admissible(rest[i], width, height) && rest[i] == c;
      assert draws[i + 1] == c;
    }
  }

  lemma SubsetCardinality(a: set<Cell>, b: set<Cell>)
    requires a <= b
    ensures |a| <= |b|
  {
    assert b == a + (b - a);
  }

  /**
   * Placement outcome: the placed mines extend `mines` by admissible drawn
   * cells only, and their number is `mineCount` unless fewer admissible cells
   * than that were drawn.
   */
  lemma {:induction false} PlaceMinesFromCount(draws: seq<Cell>, width: nat, height: nat, mineCount: int, mines: set<Cell>)
    requires DrawsInBounds(draws, width, height)
    requires forall c :: c in mines ==> Admissible(c, width, height)
    requires |mines| <= mineCount
    ensures var placed := PlaceMinesFrom(draws, width, height, mineCount, mines);
            && mines <= placed <= mines + AdmissibleDrawn(draws, width, height)
            && (forall c :: c in placed ==> Admissible(c, width, height))
            && |placed| == Min(mineCount, |mines + AdmissibleDrawn(draws, width, height)|)
    decreases |draws|
  {
    var all := mines + AdmissibleDrawn(draws, width, height);
    if |draws| == 0 {
      assert AdmissibleDrawn(draws, width, height) == {};
    } else {
      AdmissibleDrawnCons(draws, width, height);
      var d := draws[0];
      var rest := draws[1..];
      assert DrawsInBounds(rest, width, height) by {
        forall i | 0 <= i < |rest| ensures InBounds(rest[i], width, height) {
          assert rest[i] == draws[i + 1];
        }
      }
      if |mines| >= mineCount {
        SubsetCardinality(mines, all);
      } else if InProtectedBlock(d, width, height) || d in mines {
        PlaceMinesFromCount(rest, width, height, mineCount, mines);
        assert mines + AdmissibleDrawn(rest, width, height) == all;
      } else {
        PlaceMinesFromCount(rest, width, height, mineCount, mines + {d});
        assert mines + {d} + AdmissibleDrawn(rest, width, height) == all;
      }
    }
  }

  /** Starting from an empty board, exactly `mineCount` mines are placed iff the draws offer enough cells. */
  lemma PlacedMinesCount(draws: seq<Cell>, width: nat, height: nat, mineCount: int)
    requires DrawsInBounds(draws, width, height)
    requires mineCount >= 0
    ensures var placed := PlacedMines(draws, width, height, mineCount);
            && (forall c :: c in placed ==> Admissible(c, width, height))
            && |placed| <= mineCount
            && (|placed| == mineCount <==> EnoughDraws(draws, width, height, mineCount))
  {
    PlaceMinesFromCount(draws, width, height, mineCount, {});
    assert {} + AdmissibleDrawn(draws, width, height) == AdmissibleDrawn(draws, width, height);
  }

  // ---------------------------------------------------------------------------
  // How many cells can receive a mine
  // ---------------------------------------------------------------------------

  /** The cells of the n × m rectangle whose lower corner is (x0, y0). */
  ghost function Rect(x0: int, y0: int, n: nat, m: nat): set<Cell> {
    set x, y | x0 <= x < x0 + n && y0 <= y < y0 + m :: (x, y)
  }

  lemma {:induction false} ColumnCardinality(x: int, y0: int, m: nat)
    ensures |Rect(x, y0, 1, m)| == m
  {
    if m > 0 {
      ColumnCardinality(x, y0, m - 1);
      assert Rect(x, y0, 1, m) == Rect(x, y0, 1, m - 1) + {(x, y0 + m - 1)};
    }
  }

  lemma {:induction false} RectCardinality(x0: int, y0: int, n: nat, m: nat)
    ensures |Rect(x0, y0, n, m)| == n * m
  {
    if n > 0 {
      RectCardinality(x0, y0, n - 1, m);
      ColumnCardinality(x0 + n - 1, y0, m);
      var left, column := Rect(x0, y0, n - 1, m), Rect(x0 + n - 1, y0, 1, m);
      assert Rect(x0, y0, n, m) == left + column;
      assert left * column == {};
      assert (n - 1) * m + m == n * m;
    }
  }

  /** The cells a mine may be placed on. */
  ghost function AdmissibleCells(width: nat, height: nat): set<Cell> {
    set c | c in AllCells(width, height) && !InProtectedBlock(c, width, height)
  }

  /**
   * On a board with both sides at least 3 the protected block lies on the board,
   * so exactly width · height − 9 cells can receive a mine.
   */
  lemma AdmissibleCount(width: nat, height: nat)
    requires width >= 3 && height >= 3
    ensures forall c :: c in AdmissibleCells(width, height) <==> Admissible(c, width, height)
    ensures |AdmissibleCells(width, height)| == width * height - 9
  {
    var xs, ys := CalcProtectedRange(width), CalcProtectedRange(height);
    var all, block := Rect(0, 0, width, height), Rect(xs.0, ys.0, 3, 3);
    assert AllCells(width, height) == all;
    assert forall c :: c in block <==> InProtectedBlock(c, width, height);
    RectCardinality(0, 0, width, height);
    RectCardinality(xs.0, ys.0, 3, 3);
    assert block <= all;
    assert AdmissibleCells(width, height) == all - block;
    assert all == (all - block) + block;
  }

  /** Draws that offer every admissible cell offer all of them. */
  lemma CoveringDraws(draws: seq<Cell>, width: nat, height: nat)
    requires forall c :: Admissible(c, width, height) ==> c in draws
    ensures AdmissibleDrawn(draws, width, height) == AdmissibleCells(width, height)
  {
    forall c | c in AdmissibleCells(width, height)
      ensures c in AdmissibleDrawn(draws, width, height)
    {
      assert Admissible(c, width, height);
      var i :| 0 <= i < |draws| && draws[i] == c;
    }
  }

  /** A sequence listing exactly the cells of a finite set. */
  lemma {:induction false} Enumerate(s: set<Cell>) returns (q: seq<Cell>)
    ensures forall c :: c in q <==> c in s
    decreases |s|
  {
    if s == {} {
      q := [];
    } else {
      var c :| c in s;
      var rest := Enumerate(s - {c});
      q := [c] + rest;
    }
  }

  // ---------------------------------------------------------------------------
  // Numbering the board
  // ---------------------------------------------------------------------------

  /** The board right after mine placement: mines where placed, empty elsewhere. */
  function MinesGrid(mines: set<Cell>, width: nat, height: nat): (g: Grid)
    ensures IsGrid(g, width, height)
    ensures MineCells(g, width, height) == set c | c in mines && InBounds(c, width, height)
  {
    seq(width, x => seq(height, y => if (x, y) in mines then Mine else Empty))
  }

  /** What numbering writes into one cell: mines stay, every other cell shows its count. */
  function CountedCell(g: Grid, width: nat, height: nat, x: nat, y: nat): CellType
    requires IsGrid(g, width, height) && x < width && y < height
  {
    if g[x][y] == Mine then Mine
    else OfMineCount(AdjacentMines(g, width, height, x, y))
  }

  function PlaceCounts(g: Grid, width: nat, height: nat): (r: Grid)
    requires IsGrid(g, width, height)
    ensures IsGrid(r, width, height)
  {
    seq(width, x requires 0 <= x < width =>
      seq(height, y requires 0 <= y < height => CountedCell(g, width, height, x, y)))
  }

  /** Every non-mine cell shows exactly the number of its in-bounds neighbours that are mines. */
  ghost predicate CountsCorrect(g: Grid, width: nat, height: nat)
    requires IsGrid(g, width, height)
  {
    forall x, y {:trigger AdjacentMines(g, width, height, x, y)} ::
      0 <= x < width && 0 <= y < height && g[x][y] != Mine ==>
        AdjacentMineCount(g[x][y]) == AdjacentMines(g, width, height, x, y)
  }

  ghost predicate NoMineInProtectedBlock(g: Grid, width: nat, height: nat)
    requires IsGrid(g, width, height)
  {
    forall c :: c in MineCells(g, width, height) ==> !InProtectedBlock(c, width, height)
  }

  /** A generated board: correct numbers, `mineCount` mines, none in the protected block. */
  ghost predicate WellFormed(g: Grid, width: nat, height: nat, mineCount: int) {
    && IsGrid(g, width, height)
    && CountsCorrect(g, width, height)
    && |MineCells(g, width, height)| == mineCount
    && NoMineInProtectedBlock(g, width, height)
  }

  /** Numbering turns no cell into a mine and leaves every mine in place. */
  lemma PlaceCountsKeepsMines(g: Grid, width: nat, height: nat)
    requires IsGrid(g, width, height)
    ensures MineCells(PlaceCounts(g, width, height), width, height) == MineCells(g, width, height)
  {
  }

  /** After numbering, every number is right. */
  lemma PlaceCountsCorrect(g: Grid, width: nat, height: nat)
    requires IsGrid(g, width, height)
    ensures CountsCorrect(PlaceCounts(g, width, height), width, height)
  {
    var r := PlaceCounts(g, width, height);
    PlaceCountsKeepsMines(g, width, height);
    forall x, y | 0 <= x < width && 0 <= y < height && r[x][y] != Mine
      ensures AdjacentMineCount(r[x][y]) == AdjacentMines(r, width, height, x, y)
    {
      assert r[x][y] == OfMineCount(AdjacentMines(g, width, height, x, y));
    }
  }

  /** On a correctly numbered board an empty cell has no mine next to it. */
  lemma EmptyHasNoAdjacentMine(g: Grid, width: nat, height: nat, x: int, y: int)
    requires IsGrid(g, width, height) && CountsCorrect(g, width, height)
    requires InBounds((x, y), width, height) && g[x][y] == Empty
    ensures Neighbours((x, y), width, height) * MineCells(g, width, height) == {}
  {
    assert AdjacentMines(g, width, height, x, y) == 0;
    CountAdjacentZero((x, y), MineCells(g, width, height), width, height);
  }

  /** The whole generation: place mines from the draws, then number the board. */
  function Generate(width: nat, height: nat, mineCount: int, draws: seq<Cell>): (g: Grid)
    ensures IsGrid(g, width, height)
  {
    PlaceCounts(MinesGrid(PlacedMines(draws, width, height, mineCount), width, height), width, height)
  }

  /** Given enough admissible draws, generation yields a well-formed board. */
  lemma GenerateWellFormed(width: nat, height: nat, mineCount: int, draws: seq<Cell>)
    requires DrawsInBounds(draws, width, height) && mineCount >= 0
    requires EnoughDraws(draws, width, height, mineCount)
    ensures WellFormed(Generate(width, height, mineCount, draws), width, height, mineCount)
  {
    var mines := PlacedMines(draws, width, height, mineCount);
    PlacedMinesCount(draws, width, height, mineCount);
    var g0 := MinesGrid(mines, width, height);
    assert MineCells(g0, width, height) == mines;
    PlaceCountsKeepsMines(g0, width, height);
    PlaceCountsCorrect(g0, width, height);
  }

  /** A correctly numbered board is the numbering of its own mines. */
  lemma NumberingOfMines(g: Grid, width: nat, height: nat)
    requires IsGrid(g, width, height) && CountsCorrect(g, width, height)
    ensures PlaceCounts(MinesGrid(MineCells(g, width, height), width, height), width, height) == g
  {
    var mines := MineCells(g, width, height);
    var g0 := MinesGrid(mines, width, height);
    assert MineCells(g0, width, height) == mines;
    var r := PlaceCounts(g0, width, height);
    forall x, y | 0 <= x < width && 0 <= y < height
      ensures r[x][y] == g[x][y]
    {
      if g[x][y] != Mine {
        assert AdjacentMines(g0, width, height, x, y) == AdjacentMines(g, width, height, x, y);
        assert AdjacentMineCount(g[x][y]) == AdjacentMines(g, width, height, x, y);
        OfMineCountOfAdjacentMineCount(g[x][y]);
      } else {
        assert (x, y) in mines;
      }
    }
    GridExtensionality(r, g, width, height);
  }

  /**
   * A correctly numbered board is the generated one exactly when its mines are
   * the ones placement puts down: the mines determine every other cell.
   */
  lemma GeneratedIffMines(g: Grid, width: nat, height: nat, mineCount: int, draws: seq<Cell>)
    requires IsGrid(g, width, height) && CountsCorrect(g, width, height)
    requires DrawsInBounds(draws, width, height) && mineCount >= 0
    ensures g == Generate(width, height, mineCount, draws) <==>
            MineCells(g, width, height) == PlacedMines(draws, width, height, mineCount)
  {
    var placed := PlacedMines(draws, width, height, mineCount);
    PlacedMinesCount(draws, width, height, mineCount);
    var g0 := MinesGrid(placed, width, height);
    assert MineCells(g0, width, height) == placed;
    PlaceCountsKeepsMines(g0, width, height);
    NumberingOfMines(g, width, height);
  }

  /**
   * Conversely, a well-formed board is the board generated from any draws
   * whose admissible cells are exactly its mines.
   */
  lemma GenerateFromMines(g: Grid, width: nat, height: nat, mineCount: int, draws: seq<Cell>)
    requires WellFormed(g, width, height, mineCount) && DrawsInBounds(draws, width, height)
    requires AdmissibleDrawn(draws, width, height) == MineCells(g, width, height)
    ensures Generate(width, height, mineCount, draws) == g
  {
    var mines := MineCells(g, width, height);
    var placed := PlacedMines(draws, width, height, mineCount);
    PlaceMinesFromCount(draws, width, height, mineCount, {});
    assert {} + AdmissibleDrawn(draws, width, height) == mines;
    assert mines == placed + (mines - placed);
    NumberingOfMines(g, width, height);
  }
}
