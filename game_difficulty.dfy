/** The three difficulty tiers and the number of mines each puts on a board. */
module Difficulty {

  datatype GameDifficulty = Easy | Medium | Hard {

    /** Share of the board's cells that are mines, in percent. */
    function MinePercentage(): (p: int)
      ensures 10 <= p <= 20
      ensures this == Easy ==> p == 10
      ensures this == Medium ==> p == 15
      ensures this == Hard ==> p == 20
    {
      match this
      case Easy => 10
      case Medium => 15
      case Hard => 20
    }

    /**
     * Mine count for a board: the cell count times the percentage, truncated
     * towards zero, and never less than one.
     */
    function CalcMineCount(mapWidth: int, mapHeight: int): (r: int)
      ensures r >= 1
      ensures mapWidth * mapHeight * MinePercentage() >= 100 ==>
                r * 100 <= mapWidth * mapHeight * MinePercentage() < (r + 1) * 100
      ensures mapWidth * mapHeight * MinePercentage() < 200 ==> r == 1
    {
      var scaled := mapWidth * mapHeight * MinePercentage();
      if scaled < 100 then 1 else scaled / 100
    }
  }

  /** On any non-empty board the mines fit: at most one per cell. */
  lemma {:induction false} MineCountAtMostCells(d: GameDifficulty, w: int, h: int)
    requires w * h >= 1
    ensures d.CalcMineCount(w, h) <= w * h
  {
    var n := w * h;
    var p := d.MinePercentage();
    assert n * p <= n * 20;
    if n * p >= 100 {
      assert d.CalcMineCount(w, h) * 100 <= n * p <= n * 100;
    }
  }

  /** For fixed dimensions, harder tiers never place fewer mines. */
  lemma {:induction false} MineCountMonotone(w: int, h: int)
    ensures Easy.CalcMineCount(w, h) <= Medium.CalcMineCount(w, h) <= Hard.CalcMineCount(w, h)
  {
    var n := w * h;
    if n >= 0 {
      assert n * 10 <= n * 15 <= n * 20;
      DivMonotone(n * 10, n * 15);
      DivMonotone(n * 15, n * 20);
    } else {
      assert n * 20 < 100;
    }
  }

  lemma DivMonotone(a: int, b: int)
    requires 0 <= a <= b
    ensures a / 100 <= b / 100
  {
  }

  /**
   * On boards with both sides at least 5 the mines fit outside a 3-by-3 block:
   * the count never exceeds the cell count minus 9.
   */
  lemma {:induction false} MineCountLeavesNineFree(d: GameDifficulty, w: int, h: int)
    requires w >= 5 && h >= 5
    ensures d.CalcMineCount(w, h) <= w * h - 9
  {
    var n := w * h;
    assert n >= 25 by {
      assert w * h >= 5 * h >= 25;
    }
    var p := d.MinePercentage();
    assert n * p <= n * 20;
    if n * p >= 100 {
      assert d.CalcMineCount(w, h) * 100 <= n * 20;
    }
  }

  /** The values the difficulty tests assert. */
  lemma TestedValues()
    ensures Easy.CalcMineCount(3, 3) == 1 && Medium.CalcMineCount(3, 3) == 1 && Hard.CalcMineCount(3, 3) == 1
    ensures Easy.CalcMineCount(10, 4) == 4 && Medium.CalcMineCount(10, 4) == 6 && Hard.CalcMineCount(10, 4) == 8
  {
  }
}
