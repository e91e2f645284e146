/** Board geometry: coordinates, bounds and the eight neighbours of a cell. */
module Adjacency {

  /** A coordinate pair (x, y); x selects the column, y the row. */
  type Cell = (int, int)

  /** The eight offsets to the neighbouring cells. */
  const Directions: seq<(int, int)> :=
    [(-1, -1), (0, -1), (1, -1), (-1, 0), (1, 0), (-1, 1), (0, 1), (1, 1)]

  predicate InBounds(c: Cell, width: int, height: int) {
    0 <= c.0 < width && 0 <= c.1 < height
  }

  /** Every cell of a width × height board. */
  ghost function AllCells(width: int, height: int): (r: set<Cell>)
    ensures forall c :: c in r <==> InBounds(c, width, height)
  {
    set x, y | 0 <= x < width && 0 <= y < height :: (x, y)
  }

  /** Two distinct cells that touch horizontally, vertically or diagonally. */
  predicate Adjacent(c: Cell, n: Cell) {
    n != c && -1 <= n.0 - c.0 <= 1 && -1 <= n.1 - c.1 <= 1
  }

  /** The cell `k` steps along the direction list away from `c`. */
  function Step(c: Cell, k: nat): (n: Cell)
    requires k < |Directions|
    ensures Adjacent(c, n)
  {
    (c.0 + Directions[k].0, c.1 + Directions[k].1)
  }

  /** The in-bounds neighbours of `c`. */
  function Neighbours(c: Cell, width: int, height: int): (r: set<Cell>)
    ensures forall n :: n in r <==> InBounds(n, width, height) && Adjacent(c, n)
  {
    set a, b | c.0 - 1 <= a <= c.0 + 1 && c.1 - 1 <= b <= c.1 + 1 && (a, b) != c
                 && 0 <= a < width && 0 <= b < height :: (a, b)
  }

  /** The direction leading from `c` to an adjacent cell `n`. */
  function DirectionTo(c: Cell, n: Cell): (k: nat)
    requires Adjacent(c, n)
    ensures k < |Directions| && Step(c, k) == n
  {
    var dx, dy := n.0 - c.0, n.1 - c.1;
    if dy == -1 then dx + 1
    else if dy == 0 then (if dx == -1 then 3 else 4)
    else dx + 6
  }

  /** Different directions lead to different cells. */
  lemma StepInjective(c: Cell, i: nat, j: nat)
    requires i < |Directions| && j < |Directions| && Step(c, i) == Step(c, j)
    ensures i == j
  {
  }

  /** Number of directions from position `k` on whose in-bounds cell lies in `s`. */
  function CountFrom(c: Cell, s: set<Cell>, width: int, height: int, k: nat): (r: nat)
    requires k <= |Directions|
    ensures r <= |Directions| - k
    decreases |Directions| - k
  {
    if k == |Directions| then 0
    else
      (if InBounds(Step(c, k), width, height) && Step(c, k) in s then 1 else 0)
      + CountFrom(c, s, width, height, k + 1)
  }

  /** Number of in-bounds neighbours of `c` that lie in `s`, counted direction by direction. */
  function CountAdjacent(c: Cell, s: set<Cell>, width: int, height: int): (r: nat)
    ensures r <= 8
  {
    CountFrom(c, s, width, height, 0)
  }

  /** The cells the directions from position `k` on reach inside the board and inside `s`. */
  ghost function ReachedFrom(c: Cell, s: set<Cell>, width: int, height: int, k: nat): set<Cell>
    requires k <= |Directions|
  {
    set j | k <= j < |Directions| && InBounds(Step(c, j), width, height) && Step(c, j) in s :: Step(c, j)
  }

  lemma {:induction false} CountFromIsCardinality(c: Cell, s: set<Cell>, width: int, height: int, k: nat)
    requires k <= |Directions|
    ensures CountFrom(c, s, width, height, k) == |ReachedFrom(c, s, width, height, k)|
    decreases |Directions| - k
  {
    if k == |Directions| {
      assert ReachedFrom(c, s, width, height, k) == {};
    } else {
      CountFromIsCardinality(c, s, width, height, k + 1);
      var here := Step(c, k);
      var rest := ReachedFrom(c, s, width, height, k + 1);
      assert here !in rest by {
        if here in rest {
          var j :| k + 1 <= j < |Directions| && Step(c, j) == here;
          StepInjective(c, j, k);
        }
      }
      if InBounds(here, width, height) && here in s {
        assert ReachedFrom(c, s, width, height, k) == rest + {here};
      } else {
        assert ReachedFrom(c, s, width, height, k) == rest;
      }
    }
  }

  /** The direction-by-direction count is the number of in-bounds neighbours of `c` in `s`. */
  lemma CountAdjacentIsCardinality(c: Cell, s: set<Cell>, width: int, height: int)
    ensures CountAdjacent(c, s, width, height) == |Neighbours(c, width, height) * s|
  {
    CountFromIsCardinality(c, s, width, height, 0);
    var reached := ReachedFrom(c, s, width, height, 0);
    forall n | n in Neighbours(c, width, height) * s
      ensures n in reached
    {
      var k := DirectionTo(c, n);
      assert Step(c, k) == n;
    }
    assert reached == Neighbours(c, width, height) * s;
  }

  /** A count of zero means that no in-bounds neighbour lies in `s`. */
  lemma CountAdjacentZero(c: Cell, s: set<Cell>, width: int, height: int)
    ensures CountAdjacent(c, s, width, height) == 0 <==> Neighbours(c, width, height) * s == {}
  {
    CountAdjacentIsCardinality(c, s, width, height);
  }

  /** The count only depends on which in-bounds cells lie in `s`. */
  lemma {:induction false} CountFromAgrees(c: Cell, s: set<Cell>, t: set<Cell>, width: int, height: int, k: nat)
    requires k <= |Directions|
    requires forall n :: InBounds(n, width, height) ==> (n in s <==> n in t)
    ensures CountFrom(c, s, width, height, k) == CountFrom(c, t, width, height, k)
    decreases |Directions| - k
  {
    if k < |Directions| {
      CountFromAgrees(c, s, t, width, height, k + 1);
    }
  }

  /** The in-bounds cells the directions before position `k` reach. */
  ghost function StepsBelow(c: Cell, width: int, height: int, k: nat): set<Cell>
    requires k <= |Directions|
  {
    set j | 0 <= j < k && InBounds(Step(c, j), width, height) :: Step(c, j)
  }

  lemma StepsBelowNext(c: Cell, width: int, height: int, k: nat)
    requires k < |Directions|
    ensures StepsBelow(c, width, height, k + 1) ==
            StepsBelow(c, width, height, k) + (if InBounds(Step(c, k), width, height) then {Step(c, k)} else {})
  {
  }

  /** The direction at position `k` has not been walked yet. */
  lemma StepNotBelow(c: Cell, width: int, height: int, k: nat)
    requires k < |Directions|
    ensures Step(c, k) !in StepsBelow(c, width, height, k)
  {
    if Step(c, k) in StepsBelow(c, width, height, k) {
      var j :| 0 <= j < k && InBounds(Step(c, j), width, height) && Step(c, j) == Step(c, k);
      StepInjective(c, j, k);
    }
  }

  /** Walking all eight directions visits exactly the in-bounds neighbours. */
  lemma StepsBelowAll(c: Cell, width: int, height: int)
    ensures StepsBelow(c, width, height, |Directions|) == Neighbours(c, width, height)
  {
    forall n | n in Neighbours(c, width, height)
      ensures n in StepsBelow(c, width, height, |Directions|)
    {
      var k := DirectionTo(c, n);
      assert Step(c, k) == n;
    }
  }
}
