/** One game session: restarting, hitting and flagging cells, losing and winning. */
module Games {

  import opened Adjacency
  import opened Board
  import opened Config
  import opened Minefields
  import opened GameStates
  import opened Wrappers

  /** The largest seed the session draws. */
  const MaxSeed := 0x7fff_ffff

  class Game {

    var elapsedSeconds: int
    var isTimerRunning: bool
    var gameOver: bool
    var gameWon: bool
    var gameState: GameState?
    /** The objects of the current state: the state, its minefield and their matrices. */
    ghost var Repr: set<object>

    /**
     * The session invariant. Without a state nothing has happened. With one:
     * no revealed cell carries a flag, the game is lost exactly when a mine
     * is revealed, and, while it is not lost, it is won exactly when every
     * cell that is not a mine is revealed; a won game has every mine flagged
     * and no other cell.
     */
    ghost predicate Valid()
      reads this, Repr
    {
      && !(gameOver && gameWon)
      && (isTimerRunning ==> !gameOver && !gameWon)
      && (gameState == null ==> !gameOver && !gameWon && !isTimerRunning)
      && (gameState != null ==>
            && Repr == {gameState, gameState.minefield, gameState.minefield.matrix, gameState.revealed, gameState.flagged}
            && gameState.Valid()
            && StateConsistent(gameState, gameOver, gameWon))
    }

    /** The game takes input: there is a state and the game has not ended. */
    ghost predicate Active()
      reads this
    {
      gameState != null && !gameOver && !gameWon
    }

    /** A session before the first restart. */
    constructor ()
      ensures Valid() && gameState == null
      ensures !gameOver && !gameWon && !isTimerRunning && elapsedSeconds == 0
    {
      elapsedSeconds := 0;
      isTimerRunning := false;
      gameOver := false;
      gameWon := false;
      gameState := null;
      Repr := {};
    }

    /** Starts the timer unless it runs already; the ticking itself is not modelled. */
    method StartTimer()
      modifies this
      ensures isTimerRunning
      ensures elapsedSeconds == old(elapsedSeconds) && gameOver == old(gameOver) && gameWon == old(gameWon)
      ensures gameState == old(gameState) && Repr == old(Repr)
    {
      if isTimerRunning {
        return;
      }
      isTimerRunning := true;
    }

    /**
     * A new game: the timer stops and reads zero, both end flags are cleared,
     * and a fresh state over a newly generated minefield replaces the old one.
     * The seed and the cells its generator yields are parameters.
     */
    method Restart(config: ValidConfig, seed: int, draws: seq<Cell>)
      requires 1 <= seed <= MaxSeed
      requires DrawsInBounds(draws, config.mapWidth, config.mapHeight)
      requires EnoughDraws(draws, config.mapWidth, config.mapHeight,
                           config.difficulty.CalcMineCount(config.mapWidth, config.mapHeight))
      modifies this
      ensures Valid()
      ensures gameState != null && fresh(gameState) && fresh(gameState.minefield)
      ensures gameState.minefield.config == config && gameState.minefield.seed == seed
      ensures gameState.minefield.Mines() == PlacedMines(draws, config.mapWidth, config.mapHeight,
                                                         config.difficulty.CalcMineCount(config.mapWidth, config.mapHeight))
      ensures gameState.minefield.cells == Generate(config.mapWidth, config.mapHeight,
                                                    config.difficulty.CalcMineCount(config.mapWidth, config.mapHeight), draws)
      ensures gameState.revealedCells == {} && gameState.flaggedCells == {}
      ensures !isTimerRunning && elapsedSeconds == 0 && !gameOver && !gameWon
    {
      var state := NewState(config, seed, draws);
      Install(state);
    }

    /** The field updates of a restart: the timer stops at zero, both end flags clear, `state` takes over. */
    method Install(state: GameState)
      requires state.Valid() && StateConsistent(state, false, false)
      requires state.revealedCells == {} && state.flaggedCells == {}
      modifies this
      ensures Valid() && gameState == state
      ensures gameState.revealedCells == {} && gameState.flaggedCells == {}
      ensures !isTimerRunning && elapsedSeconds == 0 && !gameOver && !gameWon
    {
      isTimerRunning := false;
      elapsedSeconds := 0;
      gameOver := false;
      gameWon := false;
      gameState := state;
      Repr := {state, state.minefield, state.minefield.matrix, state.revealed, state.flagged};
    }

    /** A fresh state over the minefield generated from `draws`; creation never fails here. */
    static method NewState(config: ValidConfig, seed: int, draws: seq<Cell>) returns (state: GameState)
      requires DrawsInBounds(draws, config.mapWidth, config.mapHeight)
      requires EnoughDraws(draws, config.mapWidth, config.mapHeight,
                           config.difficulty.CalcMineCount(config.mapWidth, config.mapHeight))
      ensures fresh(state) && fresh(state.minefield) && fresh(state.minefield.matrix)
      ensures fresh(state.revealed) && fresh(state.flagged)
      ensures state.Valid() && StateConsistent(state, false, false)
      ensures state.minefield.config == config && state.minefield.seed == seed
      ensures state.minefield.Mines() == PlacedMines(draws, config.mapWidth, config.mapHeight,
                                                     config.difficulty.CalcMineCount(config.mapWidth, config.mapHeight))
      ensures state.minefield.cells == Generate(config.mapWidth, config.mapHeight,
                                                config.difficulty.CalcMineCount(config.mapWidth, config.mapHeight), draws)
      ensures state.revealedCells == {} && state.flaggedCells == {}
    {
      GuardNeverFires(config);
      var created := Minefield.Create(config, seed, draws);
      GeneratedIffMines(created.value.cells, config.mapWidth, config.mapHeight, created.value.mineCount, draws);
      state := new GameState(created.value);
      FreshGameNotWon(state);
    }

    /**
     * A tap on (x, y). Ignored without a state or after the game ended;
     * otherwise the timer starts, a flagged cell is left alone, a hidden cell
     * is revealed (losing on a mine), a revealed cell is chorded (losing when
     * the chord hits a mine), and a game that is not lost is won once every
     * cell that is not a mine is revealed, flagging all mines.
     */
    method Hit(x: int, y: int)
      requires Valid()
      requires Active() ==> gameState.IsCellWithinBounds(x, y)
      modifies this, Repr
      ensures Valid() && gameState == old(gameState) && Repr == old(Repr)
      ensures elapsedSeconds == old(elapsedSeconds)
      ensures !old(Active()) ==> unchanged(this) && unchanged(Repr)
      ensures old(Active()) ==> isTimerRunning == Active()
      ensures old(Active()) && (x, y) in old(gameState.flaggedCells) ==>
                && unchanged(Repr) && !gameOver && !gameWon
      ensures old(Active()) && (x, y) !in old(gameState.flaggedCells) && (x, y) !in old(gameState.revealedCells) ==>
                && (x, y) in gameState.revealedCells
                && (gameOver <==> (x, y) in gameState.minefield.Mines())
      ensures old(Active()) && (x, y) !in old(gameState.flaggedCells) && (x, y) !in old(gameState.revealedCells) ==>
                gameState.revealedCells ==
                  old(gameState.revealedCells) + gameState.FloodedSince(old(gameState.revealedCells), {(x, y)})
      ensures old(Active()) && (x, y) !in old(gameState.flaggedCells) && (x, y) in old(gameState.revealedCells) ==>
                && gameOver == old(gameState.ChordHitsMine(x, y))
                && gameState.revealedCells ==
                     old(gameState.revealedCells)
                     + (if old(gameState.ChordApplies(x, y))
                        then gameState.FloodedSince(old(gameState.revealedCells), gameState.Around((x, y)) - old(gameState.flaggedCells))
                        else {})
      ensures old(Active()) && !gameWon ==>
                gameState.flaggedCells == old(gameState.flaggedCells) - (gameState.revealedCells - old(gameState.revealedCells))
    {
      if gameState == null {
        return;
      }
      if gameOver || gameWon {
        return;
      }
      StartTimer();
      var state := gameState;
      if state.IsFlagged(x, y) {
        return;
      }
      if !state.IsRevealed(x, y) {
        HitHidden(x, y);
      } else {
        HitRevealed(x, y);
      }
    }

    /** The running game: a state, no end yet, the timer on. */
    ghost predicate Running()
      reads this, Repr
    {
      Valid() && Active() && isTimerRunning
    }

    /** A tap on a hidden, unflagged cell: reveal it; a mine loses, otherwise the win test follows. */
    method HitHidden(x: int, y: int)
      requires Running() && gameState.IsCellWithinBounds(x, y)
      requires (x, y) !in gameState.revealedCells
      modifies this, Repr
      ensures Valid() && gameState == old(gameState) && Repr == old(Repr)
      ensures elapsedSeconds == old(elapsedSeconds) && isTimerRunning == Active()
      ensures (x, y) in gameState.revealedCells
      ensures gameOver <==> (x, y) in gameState.minefield.Mines()
      ensures gameState.revealedCells ==
                old(gameState.revealedCells) + gameState.FloodedSince(old(gameState.revealedCells), {(x, y)})
      ensures !gameWon ==>
                gameState.flaggedCells == old(gameState.flaggedCells) - (gameState.revealedCells - old(gameState.revealedCells))
    {
      var state := gameState;
      state.Reveal(x, y);
      FlagsStayOffRevealed(old(state.revealedCells), state.revealedCells, old(state.flaggedCells), state.flaggedCells);
      if state.minefield.IsMine(x, y) {
        assert (x, y) in state.revealedCells * state.minefield.Mines();
        Lose();
        return;
      }
      NoNewMine(state.revealedCells, old(state.revealedCells), state.minefield.Mines(), (x, y));
      CheckWin();
    }

    /** A tap on a revealed cell: chord it; hitting a mine loses, otherwise the win test follows. */
    method HitRevealed(x: int, y: int)
      requires Running() && gameState.IsCellWithinBounds(x, y)
      modifies this, Repr
      ensures Valid() && gameState == old(gameState) && Repr == old(Repr)
      ensures elapsedSeconds == old(elapsedSeconds) && isTimerRunning == Active()
      ensures gameOver == old(gameState.ChordHitsMine(x, y))
      ensures gameState.revealedCells ==
                old(gameState.revealedCells)
                + (if old(gameState.ChordApplies(x, y))
                   then gameState.FloodedSince(old(gameState.revealedCells), gameState.Around((x, y)) - old(gameState.flaggedCells))
                   else {})
      ensures !gameWon ==>
                gameState.flaggedCells == old(gameState.flaggedCells) - (gameState.revealedCells - old(gameState.revealedCells))
    {
      var state := gameState;
      var hitMine := state.RevealAdjacentCells(x, y);
      FlagsStayOffRevealed(old(state.revealedCells), state.revealedCells, old(state.flaggedCells), state.flaggedCells);
      if hitMine {
        ghost var c :| c in state.revealedCells && c !in old(state.revealedCells) && c in state.minefield.Mines();
        assert c in state.revealedCells * state.minefield.Mines();
        Lose();
        return;
      }
      NoMineAdded(state.revealedCells, old(state.revealedCells), state.minefield.Mines());
      CheckWin();
    }

    /** The end of a tap that revealed a mine: the timer stops and the game is lost. */
    method Lose()
      requires gameState != null && !gameOver && !gameWon
      requires Repr == {gameState, gameState.minefield, gameState.minefield.matrix, gameState.revealed, gameState.flagged}
      requires gameState.Valid()
      requires gameState.revealedCells * gameState.flaggedCells == {}
      requires gameState.revealedCells * gameState.minefield.Mines() != {}
      modifies this
      ensures Valid() && gameState == old(gameState) && Repr == old(Repr)
      ensures elapsedSeconds == old(elapsedSeconds) && gameOver && !gameWon && !isTimerRunning
    {
      isTimerRunning := false;
      gameOver := true;
    }

    /** The win test at the end of a tap that did not lose. */
    method CheckWin()
      requires gameState != null && !gameOver && !gameWon && isTimerRunning
      requires Repr == {gameState, gameState.minefield, gameState.minefield.matrix, gameState.revealed, gameState.flagged}
      requires gameState.Valid()
      requires gameState.revealedCells * gameState.flaggedCells == {}
      requires gameState.revealedCells * gameState.minefield.Mines() == {}
      modifies this, Repr
      ensures Valid() && gameState == old(gameState) && Repr == old(Repr)
      ensures elapsedSeconds == old(elapsedSeconds) && !gameOver && isTimerRunning == !gameWon
      ensures gameState.revealedCells == old(gameState.revealedCells)
      ensures !gameWon ==> gameState.flaggedCells == old(gameState.flaggedCells)
      ensures gameWon ==> gameState.flaggedCells == old(gameState.flaggedCells) + gameState.minefield.Mines()
    {
      var state := gameState;
      var won := state.IsAllRevealed();
      if won {
        state.FlagAllMines();
        WonFlagsAreMines(state.minefield.cells, state.minefield.width, state.minefield.height,
                         old(state.revealedCells), old(state.flaggedCells));
        isTimerRunning := false;
        gameWon := true;
      }
    }

    /**
     * A flag tap on (x, y). Ignored without a state or after the game ended;
     * otherwise the timer starts, and the flag of a cell that is not revealed
     * is toggled.
     */
    method Flag(x: int, y: int)
      requires Valid()
      requires Active() ==> gameState.IsCellWithinBounds(x, y)
      modifies this, Repr
      ensures Valid() && gameState == old(gameState) && Repr == old(Repr)
      ensures elapsedSeconds == old(elapsedSeconds)
      ensures !old(Active()) ==> unchanged(this) && unchanged(Repr)
      ensures old(Active()) ==> isTimerRunning && !gameOver && !gameWon
      ensures old(Active()) ==> gameState.revealedCells == old(gameState.revealedCells)
      ensures old(Active()) ==>
                gameState.flaggedCells == if (x, y) in old(gameState.revealedCells) then old(gameState.flaggedCells)
                                          else if (x, y) in old(gameState.flaggedCells) then old(gameState.flaggedCells) - {(x, y)}
                                          else old(gameState.flaggedCells) + {(x, y)}
    {
      if gameState == null {
        return;
      }
      if gameOver || gameWon {
        return;
      }
      StartTimer();
      var state := gameState;
      if state.IsRevealed(x, y) {
        return;
      }
      state.ToggleFlag(x, y);
    }
  }

  /**
   * How the end flags relate to a state: no revealed cell is flagged, the
   * game is lost exactly when a mine is revealed, a game that is not lost is
   * won exactly when every cell that is not a mine is revealed, and a won
   * game has exactly the mines flagged.
   */
  ghost predicate StateConsistent(state: GameState, gameOver: bool, gameWon: bool)
    reads state, state.minefield
    requires IsGrid(state.minefield.cells, state.minefield.width, state.minefield.height)
  {
    var mines := state.minefield.Mines();
    && state.revealedCells * state.flaggedCells == {}
    && (gameOver <==> state.revealedCells * mines != {})
    && (!gameOver ==> (gameWon <==> state.AllRevealed()))
    && (gameWon ==> state.flaggedCells == mines)
  }

  /** A fresh game is not won: the middle cell of the board is never a mine and starts hidden. */
  lemma FreshGameNotWon(state: GameState)
    requires state.Valid() && state.revealedCells == {} && state.flaggedCells == {}
    ensures StateConsistent(state, false, false)
  {
    var g, w, h := state.minefield.cells, state.minefield.width, state.minefield.height;
    var middle := (w / 2, h / 2);
    assert InProtectedBlock(middle, w, h) && InBounds(middle, w, h);
    assert middle in AllCells(w, h) - state.minefield.Mines();
  }

  /** When the only cell that can be a new mine is not one, no mine is newly revealed. */
  lemma NoNewMine(r: set<Cell>, before: set<Cell>, mines: set<Cell>, c: Cell)
    requires forall n :: n in r - before && n in mines ==> n == c
    requires c !in mines && before * mines == {}
    ensures r * mines == {}
  {
    forall n | n in r
      ensures n !in mines
    {
      if n in before {
        assert n !in before * mines;
      }
    }
  }

  /** When no newly revealed cell is a mine and none was revealed before, no mine is revealed. */
  lemma NoMineAdded(r: set<Cell>, before: set<Cell>, mines: set<Cell>)
    requires !(exists c :: c in r && c !in before && c in mines)
    requires before * mines == {}
    ensures r * mines == {}
  {
    forall n | n in r
      ensures n !in mines
    {
      if n in before {
        assert n !in before * mines;
      }
    }
  }

  /** Revealing clears the flags of the newly revealed cells, so no revealed cell stays flagged. */
  lemma FlagsStayOffRevealed(before: set<Cell>, r: set<Cell>, beforeFlags: set<Cell>, flags: set<Cell>)
    requires before * beforeFlags == {}
    requires before <= r && flags == beforeFlags - (r - before)
    ensures r * flags == {}
  {
    forall n | n in r
      ensures n !in flags
    {
      if n in before {
        assert n !in before * beforeFlags;
      }
    }
  }

  /**
   * Once every cell that is not a mine is revealed and no revealed cell is
   * flagged, the flags sit on mines only; adding all mines flags exactly the
   * mines, none of them revealed.
   */
  lemma WonFlagsAreMines(g: Grid, width: nat, height: nat, revealed: set<Cell>, flags: set<Cell>)
    requires IsGrid(g, width, height)
    requires flags <= AllCells(width, height)
    requires AllCells(width, height) - MineCells(g, width, height) <= revealed
    requires revealed * flags == {} && revealed * MineCells(g, width, height) == {}
    ensures flags + MineCells(g, width, height) == MineCells(g, width, height)
    ensures revealed * (flags + MineCells(g, width, height)) == {}
  {
    forall c | c in flags
      ensures c in MineCells(g, width, height)
    {
      if c in revealed {
        assert c in revealed * flags;
      }
    }
  }

  /** A won game has every flag used up. */
  lemma WonGameHasNoFlagsLeft(game: Game)
    requires game.Valid() && game.gameWon
    ensures game.gameState != null
    ensures game.gameState.minefield.mineCount - |game.gameState.flaggedCells| == 0
  {
  }
}
