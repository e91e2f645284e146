/** The generated board: creation guard, mine placement, numbering and lookups. */
module Minefields {

  import opened CellTypes
  import opened Adjacency
  import opened Board
  import opened Config
  import opened Difficulty
  import opened Wrappers

  /** The contents of a cell matrix as a value. */
  ghost function Snapshot(m: array2<CellType>): (g: Grid)
    reads m
    ensures IsGrid(g, m.Length0, m.Length1)
    ensures forall x, y :: 0 <= x < m.Length0 && 0 <= y < m.Length1 ==> g[x][y] == m[x, y]
  {
    seq(m.Length0, x reads m requires 0 <= x < m.Length0 =>
      seq(m.Length1, y reads m requires 0 <= y < m.Length1 => m[x, y]))
  }

  datatype MinefieldError =
    | TooManyMines     // the mine count exceeds the number of cells
    | DrawsExhausted   // the supplied draws held too few admissible cells

  class Minefield {

    const config: ValidConfig
    const seed: int
    const width: nat
    const height: nat
    const mineCount: int
    const matrix: array2<CellType>
    /** The board as a value; the matrix is never written once the minefield exists. */
    ghost const cells: Grid

    /** The board matches its configuration, is well formed, and the matrix holds it. */
    ghost predicate Valid()
      reads this, matrix
    {
      && width == config.mapWidth
      && height == config.mapHeight
      && mineCount == config.difficulty.CalcMineCount(width, height)
      && matrix.Length0 == width
      && matrix.Length1 == height
      && WellFormed(cells, width, height, mineCount)
      && forall x, y :: 0 <= x < width && 0 <= y < height ==> matrix[x, y] == cells[x][y]
    }

    /** The coordinates of the mines. */
    ghost function Mines(): set<Cell>
      requires IsGrid(cells, width, height)
    {
      MineCells(cells, width, height)
    }

    constructor (config: ValidConfig, seed: int, matrix: array2<CellType>)
      requires matrix.Length0 == config.mapWidth && matrix.Length1 == config.mapHeight
      requires WellFormed(Snapshot(matrix), config.mapWidth, config.mapHeight,
                          config.difficulty.CalcMineCount(config.mapWidth, config.mapHeight))
      ensures Valid()
      ensures this.config == config && this.seed == seed && this.matrix == matrix
      ensures cells == Snapshot(matrix)
    {
      this.config := config;
      this.seed := seed;
      this.width := config.mapWidth;
      this.height := config.mapHeight;
      this.mineCount := config.difficulty.CalcMineCount(config.mapWidth, config.mapHeight);
      this.matrix := matrix;
      this.cells := Snapshot(matrix);
    }

    /**
     * Creation: the guard against more mines than cells runs first; then the
     * matrix is generated from the draws the seeded generator yields.
     */
    static method Create(config: ValidConfig, seed: int, draws: seq<Cell>) returns (r: Result<Minefield, MinefieldError>)
      requires DrawsInBounds(draws, config.mapWidth, config.mapHeight)
      ensures var w, h := config.mapWidth, config.mapHeight;
              var n := config.difficulty.CalcMineCount(w, h);
              && (n > w * h ==> r == Err(TooManyMines))
              && (r.Ok? <==> n <= w * h && EnoughDraws(draws, w, h, n))
              && (r.Ok? ==> && fresh(r.value) && fresh(r.value.matrix) && r.value.Valid()
                            && r.value.config == config && r.value.seed == seed
                            && r.value.cells == Generate(w, h, n, draws))
    {
      var w, h := config.mapWidth, config.mapHeight;
      var n := config.difficulty.CalcMineCount(w, h);
      if n > w * h {
        return Err(TooManyMines);
      }
      var matrix, placed := CreateMatrix(w, h, n, draws);
      PlacedMinesCount(draws, w, h, n);
      if placed < n {
        return Err(DrawsExhausted);
      }
      GenerateWellFormed(w, h, n, draws);
      var field := new Minefield(config, seed, matrix);
      return Ok(field);
    }

    /** The generated matrix, and how many mines the draws allowed to place. */
    static method CreateMatrix(width: nat, height: nat, mineCount: int, draws: seq<Cell>)
      returns (matrix: array2<CellType>, placed: nat)
      requires DrawsInBounds(draws, width, height)
      ensures fresh(matrix) && matrix.Length0 == width && matrix.Length1 == height
      ensures Snapshot(matrix) == Generate(width, height, mineCount, draws)
      ensures placed == |PlacedMines(draws, width, height, mineCount)|
    {
      matrix := new CellType[width, height]((x, y) => Empty);
      placed := PlaceMines(matrix, width, height, mineCount, draws);
      GridExtensionality(Snapshot(matrix), MinesGrid(PlacedMines(draws, width, height, mineCount), width, height),
                         width, height);
      PlaceCounts(matrix, width, height);
    }

    /**
     * Rejection sampling: take draws in order, skip those in the protected
     * block and those already holding a mine, until `mineCount` mines are down
     * or the draws run out.
     */
    static method PlaceMines(matrix: array2<CellType>, width: nat, height: nat, mineCount: int, draws: seq<Cell>)
      returns (placed: nat)
      requires matrix.Length0 == width && matrix.Length1 == height
      requires DrawsInBounds(draws, width, height)
      requires forall x, y :: 0 <= x < width && 0 <= y < height ==> matrix[x, y] == Empty
      modifies matrix
      ensures forall x, y :: 0 <= x < width && 0 <= y < height ==>
                matrix[x, y] == if (x, y) in PlacedMines(draws, width, height, mineCount) then Mine else Empty
      ensures placed == |PlacedMines(draws, width, height, mineCount)|
    {
      var protectedXRange := CalcProtectedRange(width);
      var protectedYRange := CalcProtectedRange(height);
      placed := 0;
      var i := 0;
      ghost var mines: set<Cell> := {};
      while placed < mineCount && i < |draws|
        invariant 0 <= i <= |draws|
        invariant PlaceMinesFrom(draws[i..], width, height, mineCount, mines) == PlacedMines(draws, width, height, mineCount)
        invariant placed == |mines|
        invariant forall x, y :: 0 <= x < width && 0 <= y < height ==>
                    matrix[x, y] == if (x, y) in mines then Mine else Empty
      {
        var (x, y) := draws[i];
        assert draws[i..][1..] == draws[i + 1..];
        i := i + 1;
        if protectedXRange.0 <= x <= protectedXRange.1 && protectedYRange.0 <= y <= protectedYRange.1 {
          continue;
        }
        if matrix[x, y] == Empty {
          matrix[x, y] := Mine;
          mines := mines + {(x, y)};
          placed := placed + 1;
        }
      }
    }

    /** Numbering: every non-mine cell is overwritten with the kind for its adjacent-mine count. */
    static method PlaceCounts(matrix: array2<CellType>, width: nat, height: nat)
      requires matrix.Length0 == width && matrix.Length1 == height
      modifies matrix
      ensures Snapshot(matrix) == Board.PlaceCounts(old(Snapshot(matrix)), width, height)
    {
      ghost var g0 := Snapshot(matrix);
      for x := 0 to width
        invariant NumberedUpTo(matrix, g0, x, 0)
      {
        for y := 0 to height
          invariant NumberedUpTo(matrix, g0, x, y)
        {
          NumberCell(matrix, g0, x, y);
        }
        NumberedColumn(matrix, g0, x);
      }
      GridExtensionality(Snapshot(matrix), Board.PlaceCounts(g0, width, height), width, height);
    }

    /** Numbers the cell (x, y) unless it holds a mine. */
    static method NumberCell(matrix: array2<CellType>, ghost g0: Grid, x: int, y: int)
      requires 0 <= x < matrix.Length0 && 0 <= y < matrix.Length1
      requires NumberedUpTo(matrix, g0, x, y)
      modifies matrix
      ensures NumberedUpTo(matrix, g0, x, y + 1)
    {
      if matrix[x, y] != Mine {
        NumberingKeepsMines(matrix, g0, x, y);
        var mineCount := CountMinesInAdjacentCells(matrix, x, y);
        matrix[x, y] := OfMineCount(mineCount);
      }
    }

    /** The cells before (x, y) in column order are numbered; the others still hold `g0`. */
    static ghost predicate NumberedUpTo(matrix: array2<CellType>, g0: Grid, x: int, y: int)
      reads matrix
    {
      && IsGrid(g0, matrix.Length0, matrix.Length1)
      && forall i, j :: 0 <= i < matrix.Length0 && 0 <= j < matrix.Length1 ==>
           matrix[i, j] == if i < x || (i == x && j < y) then CountedCell(g0, matrix.Length0, matrix.Length1, i, j)
                           else g0[i][j]
    }

    static lemma NumberedColumn(matrix: array2<CellType>, g0: Grid, x: int)
      requires NumberedUpTo(matrix, g0, x, matrix.Length1)
      ensures NumberedUpTo(matrix, g0, x + 1, 0)
    {
    }

    /** Numbering part of the board leaves the mines where they were. */
    static lemma NumberingKeepsMines(matrix: array2<CellType>, g0: Grid, x: int, y: int)
      requires NumberedUpTo(matrix, g0, x, y)
      ensures MineCells(Snapshot(matrix), matrix.Length0, matrix.Length1) == MineCells(g0, matrix.Length0, matrix.Length1)
    {
    }

    /** Mines among the directions from position `k` on, read from the matrix. */
    static function CountMinesFrom(matrix: array2<CellType>, x: int, y: int, k: nat): (r: nat)
      reads matrix
      requires k <= |Directions|
      ensures r == CountFrom((x, y), MineCells(Snapshot(matrix), matrix.Length0, matrix.Length1),
                             matrix.Length0, matrix.Length1, k)
      decreases |Directions| - k
    {
      if k == |Directions| then 0
      else
        var n := Step((x, y), k);
        (if HasMine(matrix, n.0, n.1) then 1 else 0) + CountMinesFrom(matrix, x, y, k + 1)
    }

    /** The number of mines among the in-bounds neighbours of (x, y). */
    static function CountMinesInAdjacentCells(matrix: array2<CellType>, x: int, y: int): (r: nat)
      reads matrix
      ensures r == AdjacentMines(Snapshot(matrix), matrix.Length0, matrix.Length1, x, y)
    {
      CountMinesFrom(matrix, x, y, 0)
    }

    /** Mine lookup; every coordinate outside the matrix is free of mines. */
    static function HasMine(matrix: array2<CellType>, x: int, y: int): (r: bool)
      reads matrix
      ensures !InBounds((x, y), matrix.Length0, matrix.Length1) ==> !r
      ensures r <==> (x, y) in MineCells(Snapshot(matrix), matrix.Length0, matrix.Length1)
    {
      if x < 0 || y < 0 || x >= matrix.Length0 || y >= matrix.Length1 then false
      else matrix[x, y] == Mine
    }

    function GetCellType(x: int, y: int): (c: CellType)
      reads this, matrix
      requires Valid() && InBounds((x, y), width, height)
      ensures c == cells[x][y]
    {
      matrix[x, y]
    }

    function IsMine(x: int, y: int): (r: bool)
      reads this, matrix
      requires Valid() && InBounds((x, y), width, height)
      ensures r <==> (x, y) in Mines()
    {
      matrix[x, y] == Mine
    }
  }

  /** For a valid configuration the creation guard never fails. */
  lemma GuardNeverFires(config: ValidConfig)
    ensures config.difficulty.CalcMineCount(config.mapWidth, config.mapHeight) <= config.mapWidth * config.mapHeight - 9
  {
    MineCountLeavesNineFree(config.difficulty, config.mapWidth, config.mapHeight);
  }

  /**
   * Draws that offer every admissible cell are always enough: the board has
   * width · height − 9 admissible cells, and the mine count is at most that.
   */
  lemma CoveringDrawsSuffice(config: ValidConfig, draws: seq<Cell>)
    requires forall c :: Admissible(c, config.mapWidth, config.mapHeight) ==> c in draws
    ensures EnoughDraws(draws, config.mapWidth, config.mapHeight,
                        config.difficulty.CalcMineCount(config.mapWidth, config.mapHeight))
  {
    GuardNeverFires(config);
    AdmissibleCount(config.mapWidth, config.mapHeight);
    CoveringDraws(draws, config.mapWidth, config.mapHeight);
  }

  /** For every valid configuration some in-bounds draws let placement finish. */
  lemma PlacementCanFinish(config: ValidConfig)
    ensures exists draws :: DrawsInBounds(draws, config.mapWidth, config.mapHeight)
                            && EnoughDraws(draws, config.mapWidth, config.mapHeight,
                                           config.difficulty.CalcMineCount(config.mapWidth, config.mapHeight))
  {
    var w, h := config.mapWidth, config.mapHeight;
    AdmissibleCount(w, h);
    var draws := Enumerate(AdmissibleCells(w, h));
    assert DrawsInBounds(draws, w, h) by {
      forall i | 0 <= i < |draws| ensures InBounds(draws[i], w, h) {
        assert draws[i] in AdmissibleCells(w, h);
      }
    }
    CoveringDrawsSuffice(config, draws);
  }
}
