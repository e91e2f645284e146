/** The per-game cell state: which cells are revealed and which are flagged. */
module GameStates {

  import opened CellTypes
  import opened Adjacency
  import opened Board
  import opened Flood
  import opened Minefields

  /** The coordinates whose entry in a boolean matrix is set. */
  ghost function Marked(a: array2<bool>): (r: set<Cell>)
    reads a
    ensures forall c :: c in r <==> InBounds(c, a.Length0, a.Length1) && a[c.0, c.1]
  {
    set x, y | 0 <= x < a.Length0 && 0 <= y < a.Length1 && a[x, y] :: (x, y)
  }

  /** The set entries in the columns before x and in column x above row y. */
  ghost function MarkedBefore(a: array2<bool>, x: int, y: int): set<Cell>
    reads a
  {
    set i, j | 0 <= i < a.Length0 && 0 <= j < a.Length1 && (i < x || (i == x && j < y)) && a[i, j] :: (i, j)
  }

  lemma MarkedBeforeNext(a: array2<bool>, x: int, y: int)
    requires 0 <= x < a.Length0 && 0 <= y < a.Length1
    ensures (x, y) !in MarkedBefore(a, x, y)
    ensures MarkedBefore(a, x, y + 1) == MarkedBefore(a, x, y) + (if a[x, y] then {(x, y)} else {})
  {
  }

  lemma MarkedBeforeColumn(a: array2<bool>, x: int)
    ensures MarkedBefore(a, x + 1, 0) == MarkedBefore(a, x, a.Length1)
  {
  }

  lemma MarkedBeforeAll(a: array2<bool>)
    ensures MarkedBefore(a, a.Length0, 0) == Marked(a)
  {
  }

  /** Counts the set entries of a boolean matrix, column by column. */
  method CountMarked(a: array2<bool>) returns (n: nat)
    ensures n == |Marked(a)|
  {
    n := 0;
    for x := 0 to a.Length0
      invariant n == |MarkedBefore(a, x, 0)|
    {
      for y := 0 to a.Length1
        invariant n == |MarkedBefore(a, x, y)|
      {
        MarkedBeforeNext(a, x, y);
        if a[x, y] {
          n := n + 1;
        }
      }
      MarkedBeforeColumn(a, x);
    }
    MarkedBeforeAll(a);
  }

  /** The cells of `s` in the columns before x and in column x above row y. */
  ghost function CellsBefore(s: set<Cell>, x: int, y: int): set<Cell>
  {
    set c | c in s && (c.0 < x || (c.0 == x && c.1 < y))
  }

  lemma CellsBeforeNext(s: set<Cell>, x: int, y: int)
    ensures CellsBefore(s, x, y + 1) == CellsBefore(s, x, y) + (if (x, y) in s then {(x, y)} else {})
  {
  }

  lemma CellsBeforeColumn(s: set<Cell>, width: int, height: int, x: int)
    requires s <= AllCells(width, height)
    ensures CellsBefore(s, x + 1, 0) == CellsBefore(s, x, height)
  {
  }

  lemma CellsBeforeAll(s: set<Cell>, width: int, height: int)
    requires s <= AllCells(width, height)
    ensures CellsBefore(s, width, 0) == s
  {
  }

  class GameState {

    const minefield: Minefield
    const revealed: array2<bool>
    const flagged: array2<bool>
    /** The revealed cells, as a set. */
    ghost var revealedCells: set<Cell>
    /** The flagged cells, as a set. */
    ghost var flaggedCells: set<Cell>

    /** Both matrices have the board's shape and agree with the two sets. */
    ghost predicate Valid()
      reads this, minefield, minefield.matrix, revealed, flagged
    {
      && minefield.Valid()
      && revealed != flagged
      && revealed.Length0 == minefield.width && revealed.Length1 == minefield.height
      && flagged.Length0 == minefield.width && flagged.Length1 == minefield.height
      && revealedCells <= AllCells(minefield.width, minefield.height)
      && flaggedCells <= AllCells(minefield.width, minefield.height)
      && (forall x, y {:trigger revealed[x, y]} :: 0 <= x < minefield.width && 0 <= y < minefield.height ==>
            (revealed[x, y] <==> (x, y) in revealedCells))
      && (forall x, y {:trigger flagged[x, y]} :: 0 <= x < minefield.width && 0 <= y < minefield.height ==>
            (flagged[x, y] <==> (x, y) in flaggedCells))
    }

    /** A fresh state: nothing revealed, nothing flagged. */
    constructor (minefield: Minefield)
      requires minefield.Valid()
      ensures Valid() && this.minefield == minefield
      ensures fresh(revealed) && fresh(flagged)
      ensures revealedCells == {} && flaggedCells == {}
    {
      this.minefield := minefield;
      revealed := new bool[minefield.width, minefield.height]((x, y) => false);
      flagged := new bool[minefield.width, minefield.height]((x, y) => false);
      revealedCells := {};
      flaggedCells := {};
    }

    // -------------------------------------------------------------------------
    // Abstract view
    // -------------------------------------------------------------------------

    /** The cells still hidden. */
    ghost function Unrevealed(): set<Cell>
      reads this
    {
      AllCells(minefield.width, minefield.height) - revealedCells
    }

    /** The neighbours of a cell on this board. */
    ghost function Around(c: Cell): set<Cell>
    {
      Neighbours(c, minefield.width, minefield.height)
    }

    /** Flood closure of the cells revealed since `before`. */
    ghost predicate ClosedSince(before: set<Cell>)
      reads this
      requires IsGrid(minefield.cells, minefield.width, minefield.height)
    {
      ClosedOver(minefield.cells, minefield.width, minefield.height, revealedCells, before)
    }

    /** The reference flood from `origins` over the cells hidden at `before`. */
    ghost function FloodedSince(before: set<Cell>, origins: set<Cell>): set<Cell>
      requires IsGrid(minefield.cells, minefield.width, minefield.height)
    {
      Flooded(minefield.cells, minefield.width, minefield.height, before, origins)
    }

    /** Flood provenance of the cells revealed since `before`, started from `origins`. */
    ghost predicate ReachedSince(before: set<Cell>, origins: set<Cell>)
      reads this
      requires IsGrid(minefield.cells, minefield.width, minefield.height)
    {
      ReachedOver(minefield.cells, minefield.width, minefield.height, revealedCells, before, origins)
    }

    // -------------------------------------------------------------------------
    // Queries
    // -------------------------------------------------------------------------

    /** The bounds check every cell access goes through. */
    predicate IsCellWithinBounds(x: int, y: int): (r: bool)
      ensures r <==> (x, y) in AllCells(minefield.width, minefield.height)
    {
      0 <= x < minefield.width && 0 <= y < minefield.height
    }

    function IsRevealed(x: int, y: int): (r: bool)
      reads this, minefield, minefield.matrix, revealed, flagged
      requires Valid() && IsCellWithinBounds(x, y)
      ensures r <==> (x, y) in revealedCells
    {
      revealed[x, y]
    }

    function IsFlagged(x: int, y: int): (r: bool)
      reads this, minefield, minefield.matrix, revealed, flagged
      requires Valid() && IsCellWithinBounds(x, y)
      ensures r <==> (x, y) in flaggedCells
    {
      flagged[x, y]
    }

    /** Flagged in-bounds cells among the directions from position `k` on. */
    function CountFlagsFrom(x: int, y: int, k: nat): (r: nat)
      reads this, minefield, minefield.matrix, revealed, flagged
      requires Valid() && k <= |Directions|
      ensures r == CountFrom((x, y), flaggedCells, minefield.width, minefield.height, k)
      decreases |Directions| - k
    {
      if k == |Directions| then 0
      else
        var n := Step((x, y), k);
        (if IsCellWithinBounds(n.0, n.1) && IsFlagged(n.0, n.1) then 1 else 0) + CountFlagsFrom(x, y, k + 1)
    }

    /** The number of flagged in-bounds neighbours of (x, y). */
    function CountAdjacentFlags(x: int, y: int): (r: nat)
      reads this, minefield, minefield.matrix, revealed, flagged
      requires Valid()
      ensures r == |Around((x, y)) * flaggedCells|
    {
      CountAdjacentIsCardinality((x, y), flaggedCells, minefield.width, minefield.height);
      CountFlagsFrom(x, y, 0)
    }

    /** Every cell that is not a mine is revealed. */
    ghost predicate AllRevealed()
      reads this
      requires IsGrid(minefield.cells, minefield.width, minefield.height)
    {
      AllCells(minefield.width, minefield.height) - minefield.Mines() <= revealedCells
    }

    /** The win test: scans column by column and stops at the first hidden cell that is not a mine. */
    method IsAllRevealed() returns (r: bool)
      requires Valid()
      ensures r <==> AllRevealed()
    {
      for x := 0 to minefield.width
        invariant forall i, j :: 0 <= i < x && 0 <= j < minefield.height ==>
                    (i, j) in minefield.Mines() || (i, j) in revealedCells
      {
        for y := 0 to minefield.height
          invariant forall i, j :: 0 <= j < minefield.height && (0 <= i < x || (i == x && j < y)) ==>
                      (i, j) in minefield.Mines() || (i, j) in revealedCells
        {
          if !minefield.IsMine(x, y) && !IsRevealed(x, y) {
            assert (x, y) in AllCells(minefield.width, minefield.height) - minefield.Mines();
            return false;
          }
        }
      }
      return true;
    }

    /** The flag matrix holds exactly the flagged cells. */
    lemma FlagMatrixMarksFlaggedCells()
      requires Valid()
      ensures Marked(flagged) == flaggedCells
    {
    }

    /** Mines still to be flagged; negative once more cells are flagged than there are mines. */
    method GetRemainingFlagsCount() returns (r: int)
      requires Valid()
      ensures r == minefield.mineCount - |flaggedCells|
    {
      var flags := CountMarked(flagged);
      FlagMatrixMarksFlaggedCells();
      r := minefield.mineCount - flags;
    }

    // -------------------------------------------------------------------------
    // Updates
    // -------------------------------------------------------------------------

    /**
     * Reveals (x, y) and clears its flag; an empty cell spreads the reveal to
     * every neighbour not yet revealed. Already revealed cells are left alone.
     */
    method Reveal(x: int, y: int)
      requires Valid() && IsCellWithinBounds(x, y)
      modifies this, revealed, flagged
      ensures Valid()
      ensures (x, y) in revealedCells
      ensures old(revealedCells) <= revealedCells
      ensures flaggedCells == old(flaggedCells) - (revealedCells - old(revealedCells))
      ensures (x, y) in old(revealedCells) ==> revealedCells == old(revealedCells)
      ensures ClosedSince(old(revealedCells))
      ensures ReachedSince(old(revealedCells), {(x, y)})
      ensures revealedCells == old(revealedCells) + FloodedSince(old(revealedCells), {(x, y)})
      ensures (x, y) !in old(revealedCells) && minefield.cells[x][y] != Empty ==>
                revealedCells == old(revealedCells) + {(x, y)}
      ensures forall c :: c in revealedCells - old(revealedCells) && c in minefield.Mines() ==> c == (x, y)
      decreases Unrevealed(), 0
    {
      ghost var g, w, h := minefield.cells, minefield.width, minefield.height;
      if revealed[x, y] {
        FloodExact(g, w, h, revealedCells, revealedCells, {(x, y)});
        return;
      }
      MarkRevealed(x, y);
      ghost var middle, middleFlags := revealedCells, flaggedCells;
      assert middle - old(revealedCells) == {(x, y)};
      assert Unrevealed() < old(Unrevealed()) by {
        assert (x, y) in old(Unrevealed()) && (x, y) !in Unrevealed();
      }
      if minefield.GetCellType(x, y) == Empty {
        RevealAround(x, y);
      }
      ClearedFlagsCompose(old(revealedCells), old(flaggedCells), middle, middleFlags, revealedCells, flaggedCells);
      RevealOutcome(g, w, h, old(revealedCells), middle, revealedCells, (x, y));
    }

    /** Reveals the single cell (x, y) and clears its flag. */
    method MarkRevealed(x: int, y: int)
      requires Valid() && IsCellWithinBounds(x, y)
      modifies this, revealed, flagged
      ensures Valid()
      ensures revealedCells == old(revealedCells) + {(x, y)}
      ensures flaggedCells == old(flaggedCells) - {(x, y)}
    {
      revealed[x, y] := true;
      revealedCells := revealedCells + {(x, y)};
      flagged[x, y] := false;
      flaggedCells := flaggedCells - {(x, y)};
    }

    /** The flood step of a reveal: reveals every hidden neighbour of the revealed cell (x, y). */
    method RevealAround(x: int, y: int)
      requires Valid() && IsCellWithinBounds(x, y) && (x, y) in revealedCells
      modifies this, revealed, flagged
      ensures Valid()
      ensures old(revealedCells) <= revealedCells
      ensures flaggedCells == old(flaggedCells) - (revealedCells - old(revealedCells))
      ensures Around((x, y)) <= revealedCells
      ensures ClosedSince(old(revealedCells))
      ensures ReachedSince(old(revealedCells), Around((x, y)))
      ensures revealedCells == old(revealedCells) + FloodedSince(old(revealedCells), Around((x, y)))
      decreases Unrevealed(), 1
    {
      ghost var g, w, h := minefield.cells, minefield.width, minefield.height;
      for k := 0 to |Directions|
        invariant Valid() && IsGrid(g, w, h)
        invariant SpreadProgress(g, w, h, old(revealedCells), old(flaggedCells), revealedCells, flaggedCells, (x, y), k)
      {
        ghost var mid, midFlags := revealedCells, flaggedCells;
        var (adjX, adjY) := Step((x, y), k);
        if IsCellWithinBounds(adjX, adjY) && !IsRevealed(adjX, adjY) {
          assert Unrevealed() <= old(Unrevealed());
          Reveal(adjX, adjY);
        }
        SpreadStep(g, w, h, old(revealedCells), old(flaggedCells), mid, midFlags, revealedCells, flaggedCells, (x, y), k);
      }
      StepsBelowAll((x, y), w, h);
      FloodExact(g, w, h, revealedCells, old(revealedCells), Around((x, y)));
    }

    /** A number cell with exactly as many flagged neighbours as its number: a chord applies. */
    ghost predicate ChordApplies(x: int, y: int)
      reads this
      requires IsGrid(minefield.cells, minefield.width, minefield.height) && IsCellWithinBounds(x, y)
    {
      var t := minefield.cells[x][y];
      IsNumber(t) && AdjacentMineCount(t) == |Around((x, y)) * flaggedCells|
    }

    /** A chord applies at (x, y) and some hidden, unflagged neighbour is a mine. */
    ghost predicate ChordHitsMine(x: int, y: int)
      reads this
      requires IsGrid(minefield.cells, minefield.width, minefield.height) && IsCellWithinBounds(x, y)
    {
      && ChordApplies(x, y)
      && HiddenMineAmong(minefield.cells, minefield.width, minefield.height, Around((x, y)), revealedCells, flaggedCells)
    }

    /**
     * Chording on a number: when as many neighbours are flagged as the number
     * says, every hidden unflagged neighbour is revealed (flooding from empty
     * ones). The result says whether one of those was a mine.
     */
    method RevealAdjacentCells(x: int, y: int) returns (hitMine: bool)
      requires Valid() && IsCellWithinBounds(x, y)
      modifies this, revealed, flagged
      ensures Valid()
      ensures old(revealedCells) <= revealedCells
      ensures flaggedCells == old(flaggedCells) - (revealedCells - old(revealedCells))
      ensures !old(ChordApplies(x, y)) ==> !hitMine && revealedCells == old(revealedCells)
      ensures old(ChordApplies(x, y)) ==> Around((x, y)) - old(flaggedCells) <= revealedCells
      ensures hitMine <==> old(ChordHitsMine(x, y))
      ensures ClosedSince(old(revealedCells))
      ensures ReachedSince(old(revealedCells), Around((x, y)) - old(flaggedCells))
      ensures old(ChordApplies(x, y)) ==>
                revealedCells == old(revealedCells) + FloodedSince(old(revealedCells), Around((x, y)) - old(flaggedCells))
      ensures hitMine <==> exists c :: c in revealedCells && c !in old(revealedCells) && c in minefield.Mines()
    {
      var cellType := minefield.GetCellType(x, y);
      if cellType == Empty || cellType == Mine {
        return false;
      }
      hitMine := false;
      if AdjacentMineCount(cellType) > 0 {
        var adjacentFlags := CountAdjacentFlags(x, y);
        if AdjacentMineCount(cellType) == adjacentFlags {
          hitMine := RevealUnflaggedAround(x, y);
          StepsBelowAll((x, y), minefield.width, minefield.height);
          FloodExact(minefield.cells, minefield.width, minefield.height, revealedCells, old(revealedCells),
                     Around((x, y)) - old(flaggedCells));
          if hitMine {
            HiddenMineRevealed(minefield.cells, minefield.width, minefield.height, Around((x, y)),
                               old(revealedCells), old(flaggedCells), revealedCells);
          }
        }
      }
    }

    /** The loop of a chord: reveals every hidden, unflagged neighbour of (x, y). */
    method RevealUnflaggedAround(x: int, y: int) returns (hitMine: bool)
      requires Valid() && IsCellWithinBounds(x, y)
      modifies this, revealed, flagged
      ensures Valid()
      ensures ChordProgress(minefield.cells, minefield.width, minefield.height, old(revealedCells), old(flaggedCells),
                            revealedCells, flaggedCells, (x, y), |Directions|, hitMine)
    {
      hitMine := false;
      ghost var g, w, h := minefield.cells, minefield.width, minefield.height;
      ChordStart(g, w, h, revealedCells, flaggedCells, (x, y));
      for k := 0 to |Directions|
        invariant Valid() && IsGrid(g, w, h)
        invariant ChordProgress(g, w, h, old(revealedCells), old(flaggedCells), revealedCells, flaggedCells,
                                (x, y), k, hitMine)
      {
        hitMine := ChordStepAt(x, y, k, old(revealedCells), old(flaggedCells), hitMine);
      }
    }

    /** One direction of a chord: reveals the neighbour at position `k` when it is hidden and unflagged. */
    method ChordStepAt(x: int, y: int, k: nat, ghost before: set<Cell>, ghost beforeFlags: set<Cell>, hitBefore: bool)
      returns (hitMine: bool)
      requires Valid() && IsCellWithinBounds(x, y) && k < |Directions|
      requires ChordProgress(minefield.cells, minefield.width, minefield.height, before, beforeFlags,
                             revealedCells, flaggedCells, (x, y), k, hitBefore)
      modifies this, revealed, flagged
      ensures Valid()
      ensures ChordProgress(minefield.cells, minefield.width, minefield.height, before, beforeFlags,
                            revealedCells, flaggedCells, (x, y), k + 1, hitMine)
    {
      hitMine := hitBefore;
      var (adjX, adjY) := Step((x, y), k);
      if IsCellWithinBounds(adjX, adjY) && !IsRevealed(adjX, adjY) && !IsFlagged(adjX, adjY) {
        Reveal(adjX, adjY);
        if minefield.IsMine(adjX, adjY) {
          hitMine := true;
        }
      }
      ChordStep(minefield.cells, minefield.width, minefield.height, before, beforeFlags,
                old(revealedCells), old(flaggedCells), hitBefore, revealedCells, flaggedCells, hitMine, (x, y), k);
    }

    /** Flips the flag of (x, y) and nothing else. */
    method ToggleFlag(x: int, y: int)
      requires Valid() && IsCellWithinBounds(x, y)
      modifies this, flagged
      ensures Valid() && revealedCells == old(revealedCells)
      ensures flaggedCells == if (x, y) in old(flaggedCells) then old(flaggedCells) - {(x, y)}
                              else old(flaggedCells) + {(x, y)}
    {
      flagged[x, y] := !flagged[x, y];
      if flagged[x, y] {
        flaggedCells := flaggedCells + {(x, y)};
      } else {
        flaggedCells := flaggedCells - {(x, y)};
      }
    }

    /** One cell of the sweep that flags every mine: the mines before (x, y) are flagged on top of `base`. */
    method FlagIfMine(x: int, y: int, ghost base: set<Cell>)
      requires Valid() && IsCellWithinBounds(x, y)
      requires flaggedCells == base + CellsBefore(minefield.Mines(), x, y)
      modifies this, flagged
      ensures Valid() && revealedCells == old(revealedCells)
      ensures flaggedCells == base + CellsBefore(minefield.Mines(), x, y + 1)
    {
      CellsBeforeNext(minefield.Mines(), x, y);
      if minefield.IsMine(x, y) {
        SetFlag(x, y);
      }
    }

    /** Sets the flag of (x, y). */
    method SetFlag(x: int, y: int)
      requires Valid() && IsCellWithinBounds(x, y)
      modifies this, flagged
      ensures Valid() && revealedCells == old(revealedCells)
      ensures flaggedCells == old(flaggedCells) + {(x, y)}
    {
      flagged[x, y] := true;
      flaggedCells := flaggedCells + {(x, y)};
    }

    /** Flags every mine; other flags are kept as they are. */
    method FlagAllMines()
      requires Valid()
      modifies this, flagged
      ensures Valid() && revealedCells == old(revealedCells)
      ensures flaggedCells == old(flaggedCells) + minefield.Mines()
    {
      for x := 0 to minefield.width
        invariant Valid() && revealedCells == old(revealedCells)
        invariant flaggedCells == old(flaggedCells) + CellsBefore(minefield.Mines(), x, 0)
      {
        for y := 0 to minefield.height
          invariant Valid() && revealedCells == old(revealedCells)
          invariant flaggedCells == old(flaggedCells) + CellsBefore(minefield.Mines(), x, y)
        {
          FlagIfMine(x, y, old(flaggedCells));
        }
        CellsBeforeColumn(minefield.Mines(), minefield.width, minefield.height, x);
      }
      CellsBeforeAll(minefield.Mines(), minefield.width, minefield.height);
    }
  }
}
