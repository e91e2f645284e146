/**
 * The flood fill of a reveal, stated on sets of revealed cells: closure (every
 * newly revealed empty cell has its whole neighbourhood revealed) and provenance
 * (every newly revealed cell lies at the end of a flood path from where the
 * reveal started). Together they determine the revealed set exactly: it is
 * what was revealed before plus `Flooded`, the cells such paths reach.
 */
module Flood {

  import opened CellTypes
  import opened Adjacency
  import opened Board

  /**
   * Flood closure over a revealed set `r`: every empty cell of `r` outside
   * `before` has all its neighbours in `r`.
   */
  ghost predicate ClosedOver(g: Grid, width: nat, height: nat, r: set<Cell>, before: set<Cell>)
    requires IsGrid(g, width, height)
  {
    forall c {:trigger Neighbours(c, width, height)} ::
      c in r && c !in before && InBounds(c, width, height) && g[c.0][c.1] == Empty ==>
        Neighbours(c, width, height) <= r
  }

  /** Position `i` of `p` continues the flood: cell `i - 1` is an in-bounds empty cell and cell `i` its neighbour. */
  ghost predicate LinkAt(g: Grid, width: nat, height: nat, p: seq<Cell>, i: int)
    requires IsGrid(g, width, height)
  {
    && 0 < i < |p|
    && InBounds(p[i - 1], width, height)
    && g[p[i - 1].0][p[i - 1].1] == Empty
    && p[i] in Neighbours(p[i - 1], width, height)
  }

  /**
   * A flood path that avoids `before`: in-bounds cells, none revealed before,
   * each cell but the first a neighbour of the previous one, which is empty.
   */
  ghost predicate IsPath(g: Grid, width: nat, height: nat, before: set<Cell>, p: seq<Cell>)
    requires IsGrid(g, width, height)
  {
    && |p| > 0
    && (forall i :: 0 <= i < |p| ==> InBounds(p[i], width, height) && p[i] !in before)
    && (forall i :: 0 < i < |p| ==> LinkAt(g, width, height, p, i))
  }

  /** Some flood path avoiding `before` leads from one of `origins` to `c`. */
  ghost predicate Reaches(g: Grid, width: nat, height: nat, before: set<Cell>, origins: set<Cell>, c: Cell)
    requires IsGrid(g, width, height)
  {
    exists p :: IsPath(g, width, height, before, p) && p[0] in origins && p[|p| - 1] == c
  }

  /** The reference flood: every cell a flood path avoiding `before` reaches from `origins`. */
  ghost function Flooded(g: Grid, width: nat, height: nat, before: set<Cell>, origins: set<Cell>): set<Cell>
    requires IsGrid(g, width, height)
  {
    set c | c in AllCells(width, height) && Reaches(g, width, height, before, origins, c)
  }

  /**
   * Flood provenance over a revealed set `r`: every cell of `r` outside
   * `before` is reached from `origins` by a flood path avoiding `before`.
   */
  ghost predicate ReachedOver(g: Grid, width: nat, height: nat, r: set<Cell>, before: set<Cell>, origins: set<Cell>)
    requires IsGrid(g, width, height)
  {
    forall c :: c in r && c !in before ==> Reaches(g, width, height, before, origins, c)
  }

  /** A path avoiding a larger set avoids a smaller one. */
  lemma PathAvoidsLess(g: Grid, width: nat, height: nat, before: set<Cell>, middle: set<Cell>, p: seq<Cell>)
    requires IsGrid(g, width, height) && before <= middle
    requires IsPath(g, width, height, middle, p)
    ensures IsPath(g, width, height, before, p)
  {
  }

  /** A path can be started one step earlier, from an empty neighbour of its first cell. */
  lemma PathCons(g: Grid, width: nat, height: nat, before: set<Cell>, o: Cell, p: seq<Cell>)
    requires IsGrid(g, width, height) && InBounds(o, width, height) && o !in before && g[o.0][o.1] == Empty
    requires IsPath(g, width, height, before, p) && p[0] in Neighbours(o, width, height)
    ensures IsPath(g, width, height, before, [o] + p)
  {
    var q := [o] + p;
    forall i | 0 < i < |q|
      ensures LinkAt(g, width, height, q, i)
    {
      if i > 1 {
        assert LinkAt(g, width, height, p, i - 1);
        assert q[i - 1] == p[i - 2] && q[i] == p[i - 1];
      }
    }
    forall i | 0 <= i < |q|
      ensures InBounds(q[i], width, height) && q[i] !in before
    {
      if i > 0 {
        assert q[i] == p[i - 1];
      }
    }
  }

  /** A closed revealed set that holds the start of a path holds all of it. */
  lemma {:induction false} PathInside(g: Grid, width: nat, height: nat, r: set<Cell>, before: set<Cell>,
                                      p: seq<Cell>, i: nat)
    requires IsGrid(g, width, height) && ClosedOver(g, width, height, r, before)
    requires IsPath(g, width, height, before, p) && p[0] in r && i < |p|
    ensures p[i] in r
  {
    if i > 0 {
      PathInside(g, width, height, r, before, p, i - 1);
      assert LinkAt(g, width, height, p, i);
      var c := p[i - 1];
      assert c in r && c !in before && InBounds(c, width, height) && g[c.0][c.1] == Empty;
      assert Neighbours(c, width, height) <= r;
    }
  }

  /**
   * Closure and provenance determine the flood: a revealed set that holds
   * what was revealed before and the origins, is closed, and was reached
   * from the origins is exactly `before` plus the reference flood.
   */
  lemma FloodExact(g: Grid, width: nat, height: nat, r: set<Cell>, before: set<Cell>, origins: set<Cell>)
    requires IsGrid(g, width, height)
    requires before <= r && origins - before <= r
    requires ClosedOver(g, width, height, r, before)
    requires ReachedOver(g, width, height, r, before, origins)
    ensures r == before + Flooded(g, width, height, before, origins)
  {
    FloodedInside(g, width, height, r, before, origins);
    RevealedFlooded(g, width, height, r, before, origins);
  }

  /** A closed revealed set holding the origins holds the whole reference flood. */
  lemma FloodedInside(g: Grid, width: nat, height: nat, r: set<Cell>, before: set<Cell>, origins: set<Cell>)
    requires IsGrid(g, width, height)
    requires origins - before <= r
    requires ClosedOver(g, width, height, r, before)
    ensures Flooded(g, width, height, before, origins) <= r
  {
    forall c | c in Flooded(g, width, height, before, origins) ensures c in r {
      var p: seq<Cell> :| IsPath(g, width, height, before, p) && p[0] in origins && p[|p| - 1] == c;
      PathInside(g, width, height, r, before, p, |p| - 1);
    }
  }

  /** Every cell revealed with provenance from the origins lies in the reference flood. */
  lemma RevealedFlooded(g: Grid, width: nat, height: nat, r: set<Cell>, before: set<Cell>, origins: set<Cell>)
    requires IsGrid(g, width, height)
    requires ReachedOver(g, width, height, r, before, origins)
    ensures r - before <= Flooded(g, width, height, before, origins)
  {
    forall c | c in r && c !in before ensures c in Flooded(g, width, height, before, origins) {
      var p: seq<Cell> :| IsPath(g, width, height, before, p) && p[0] in origins && p[|p| - 1] == c;
      assert InBounds(p[|p| - 1], width, height);
    }
  }

  /** A reveal of a cell that is not empty floods nothing beyond the cell itself. */
  lemma FloodOfNumber(g: Grid, width: nat, height: nat, before: set<Cell>, o: Cell)
    requires IsGrid(g, width, height) && InBounds(o, width, height) && o !in before && g[o.0][o.1] != Empty
    ensures Flooded(g, width, height, before, {o}) == {o}
  {
    var f := Flooded(g, width, height, before, {o});
    forall c | c in f ensures c == o {
      var p: seq<Cell> :| IsPath(g, width, height, before, p) && p[0] in {o} && p[|p| - 1] == c;
      assert |p| > 1 ==> LinkAt(g, width, height, p, 1);
    }
    assert IsPath(g, width, height, before, [o]);
  }

  /**
   * Closure and provenance survive a nested reveal started from `nexts`,
   * cells among the `targets` the flood is allowed to start from.
   */
  lemma FloodCompose(g: Grid, width: nat, height: nat, before: set<Cell>, middle: set<Cell>, after: set<Cell>,
                     targets: set<Cell>, nexts: set<Cell>)
    requires IsGrid(g, width, height)
    requires before <= middle <= after && nexts <= targets
    requires ClosedOver(g, width, height, middle, before)
    requires ReachedOver(g, width, height, middle, before, targets)
    requires ClosedOver(g, width, height, after, middle)
    requires ReachedOver(g, width, height, after, middle, nexts)
    ensures ClosedOver(g, width, height, after, before)
    ensures ReachedOver(g, width, height, after, before, targets)
  {
    forall c | c in after && c !in before && InBounds(c, width, height) && g[c.0][c.1] == Empty
      ensures Neighbours(c, width, height) <= after
    {
      if c in middle {
        assert Neighbours(c, width, height) <= middle;
      }
    }
    forall c | c in after && c !in before
      ensures Reaches(g, width, height, before, targets, c)
    {
      if c !in middle {
        var p: seq<Cell> :| IsPath(g, width, height, middle, p) && p[0] in nexts && p[|p| - 1] == c;
        PathAvoidsLess(g, width, height, before, middle, p);
      }
    }
  }

  /**
   * A reveal of `origin`: either a number or mine (nothing more is revealed)
   * or an empty cell whose whole neighbourhood was then flooded.
   */
  lemma FloodFromOrigin(g: Grid, width: nat, height: nat, before: set<Cell>, middle: set<Cell>, r: set<Cell>,
                        origin: Cell)
    requires IsGrid(g, width, height) && InBounds(origin, width, height)
    requires middle == before + {origin} && origin !in before && middle <= r
    requires g[origin.0][origin.1] != Empty ==> r == middle
    requires g[origin.0][origin.1] == Empty ==>
               && Neighbours(origin, width, height) <= r
               && ClosedOver(g, width, height, r, middle)
               && ReachedOver(g, width, height, r, middle, Neighbours(origin, width, height))
    ensures ClosedOver(g, width, height, r, before)
    ensures ReachedOver(g, width, height, r, before, {origin})
  {
    assert IsPath(g, width, height, before, [origin]);
    forall c | c in r && c !in before
      ensures Reaches(g, width, height, before, {origin}, c)
    {
      if c != origin {
        ReachesThrough(g, width, height, before, middle, origin, c);
      }
    }
  }

  /**
   * Everything one reveal of `origin` establishes: closure, provenance, the
   * exact revealed set, nothing beyond the origin for a cell that is not
   * empty, and no mine other than the origin.
   */
  lemma RevealOutcome(g: Grid, width: nat, height: nat, before: set<Cell>, middle: set<Cell>, r: set<Cell>,
                      origin: Cell)
    requires IsGrid(g, width, height) && CountsCorrect(g, width, height) && InBounds(origin, width, height)
    requires middle == before + {origin} && origin !in before && middle <= r
    requires g[origin.0][origin.1] != Empty ==> r == middle
    requires g[origin.0][origin.1] == Empty ==>
               && Neighbours(origin, width, height) <= r
               && ClosedOver(g, width, height, r, middle)
               && ReachedOver(g, width, height, r, middle, Neighbours(origin, width, height))
    ensures ClosedOver(g, width, height, r, before)
    ensures ReachedOver(g, width, height, r, before, {origin})
    ensures r == before + Flooded(g, width, height, before, {origin})
    ensures g[origin.0][origin.1] != Empty ==> r == before + {origin}
    ensures forall c :: c in r && c !in before && c in MineCells(g, width, height) ==> c == origin
  {
    FloodFromOrigin(g, width, height, before, middle, r, origin);
    ReachedAvoidsMines(g, width, height, r, before, {origin});
    FloodExact(g, width, height, r, before, {origin});
  }

  /** A cell reached from the neighbours of an empty origin is reached from the origin itself. */
  lemma ReachesThrough(g: Grid, width: nat, height: nat, before: set<Cell>, middle: set<Cell>, origin: Cell, c: Cell)
    requires IsGrid(g, width, height) && InBounds(origin, width, height) && g[origin.0][origin.1] == Empty
    requires middle == before + {origin} && origin !in before
    requires Reaches(g, width, height, middle, Neighbours(origin, width, height), c)
    ensures Reaches(g, width, height, before, {origin}, c)
  {
    var p: seq<Cell> :| IsPath(g, width, height, middle, p) && p[0] in Neighbours(origin, width, height) && p[|p| - 1] == c;
    PathAvoidsLess(g, width, height, before, middle, p);
    PathCons(g, width, height, before, origin, p);
    assert ([origin] + p)[|[origin] + p| - 1] == c;
  }

  /** On a correctly numbered board the flood from empty cells never reaches a mine. */
  lemma ReachedAvoidsMines(g: Grid, width: nat, height: nat, r: set<Cell>, before: set<Cell>, origins: set<Cell>)
    requires IsGrid(g, width, height) && CountsCorrect(g, width, height)
    requires ReachedOver(g, width, height, r, before, origins)
    ensures forall c :: c in r && c !in before && c !in origins ==> c !in MineCells(g, width, height)
  {
    forall c | c in r && c !in before && c !in origins
      ensures c !in MineCells(g, width, height)
    {
      var p: seq<Cell> :| IsPath(g, width, height, before, p) && p[0] in origins && p[|p| - 1] == c;
      var e := p[|p| - 2];
      assert LinkAt(g, width, height, p, |p| - 1);
      assert InBounds(e, width, height) && g[e.0][e.1] == Empty && c in Neighbours(e, width, height);
      assert (e.0, e.1) == e;
      EmptyHasNoAdjacentMine(g, width, height, e.0, e.1);
      assert c !in Neighbours(e, width, height) * MineCells(g, width, height);
    }
  }


  /**
   * Progress of the flood step around `origin` after the first `k`
   * directions, from revealed cells `before` and flags `beforeFlags` to
   * revealed cells `r` and flags `f`.
   */
  ghost predicate SpreadProgress(g: Grid, width: nat, height: nat, before: set<Cell>, beforeFlags: set<Cell>,
                                 r: set<Cell>, f: set<Cell>, origin: Cell, k: nat)
    requires IsGrid(g, width, height) && k <= |Directions|
  {
    && before <= r
    && f == beforeFlags - (r - before)
    && StepsBelow(origin, width, height, k) <= r
    && ClosedOver(g, width, height, r, before)
    && ReachedOver(g, width, height, r, before, Neighbours(origin, width, height))
  }

  /**
   * One direction of the flood step: the neighbour in direction `k` was
   * either skipped (out of bounds or already revealed) or revealed by a
   * nested reveal taking the state from `mid` to `after`.
   */
  lemma SpreadStep(g: Grid, width: nat, height: nat, before: set<Cell>, beforeFlags: set<Cell>,
                   mid: set<Cell>, midFlags: set<Cell>, after: set<Cell>, afterFlags: set<Cell>, origin: Cell, k: nat)
    requires IsGrid(g, width, height) && k < |Directions|
    requires SpreadProgress(g, width, height, before, beforeFlags, mid, midFlags, origin, k)
    requires mid <= after && afterFlags == midFlags - (after - mid)
    requires InBounds(Step(origin, k), width, height) ==> Step(origin, k) in after
    requires !InBounds(Step(origin, k), width, height) ==> after == mid
    requires ClosedOver(g, width, height, after, mid)
    requires ReachedOver(g, width, height, after, mid, {Step(origin, k)})
    ensures SpreadProgress(g, width, height, before, beforeFlags, after, afterFlags, origin, k + 1)
  {
    StepsBelowNext(origin, width, height, k);
    ClearedFlagsCompose(before, beforeFlags, mid, midFlags, after, afterFlags);
    if after != mid {
      assert Step(origin, k) in Neighbours(origin, width, height);
      FloodCompose(g, width, height, before, mid, after, Neighbours(origin, width, height), {Step(origin, k)});
    }
  }

  /** Clearing the flags of newly revealed cells composes over two steps. */
  lemma ClearedFlagsCompose(before: set<Cell>, beforeFlags: set<Cell>, mid: set<Cell>, midFlags: set<Cell>,
                            after: set<Cell>, afterFlags: set<Cell>)
    requires before <= mid <= after
    requires midFlags == beforeFlags - (mid - before) && afterFlags == midFlags - (after - mid)
    ensures afterFlags == beforeFlags - (after - before)
  {
  }

  /**
   * Progress of a chord around `origin` after the first `k` directions:
   * every unflagged neighbour walked so far is revealed, the only new mines
   * are unflagged neighbours walked so far, and `hit` records whether one of
   * them was a hidden, unflagged mine.
   */
  ghost predicate ChordProgress(g: Grid, width: nat, height: nat, before: set<Cell>, beforeFlags: set<Cell>,
                                r: set<Cell>, f: set<Cell>, origin: Cell, k: nat, hit: bool)
    requires IsGrid(g, width, height) && k <= |Directions|
  {
    && before <= r
    && f == beforeFlags - (r - before)
    && StepsBelow(origin, width, height, k) - beforeFlags <= r
    && ClosedOver(g, width, height, r, before)
    && ReachedOver(g, width, height, r, before, Neighbours(origin, width, height) - beforeFlags)
    && (forall c :: c in r && c !in before && c in MineCells(g, width, height) ==>
          c in StepsBelow(origin, width, height, k) && c !in beforeFlags)
    && (hit <==> HiddenMineAmong(g, width, height, StepsBelow(origin, width, height, k), before, beforeFlags))
  }

  /** Before the first direction a chord has revealed nothing and hit nothing. */
  lemma ChordStart(g: Grid, width: nat, height: nat, before: set<Cell>, beforeFlags: set<Cell>, origin: Cell)
    requires IsGrid(g, width, height)
    ensures ChordProgress(g, width, height, before, beforeFlags, before, beforeFlags, origin, 0, false)
  {
    assert StepsBelow(origin, width, height, 0) == {};
  }

  /** Some cell of `s` is a mine that is neither revealed nor flagged. */
  ghost predicate HiddenMineAmong(g: Grid, width: nat, height: nat, s: set<Cell>, revealed: set<Cell>, flags: set<Cell>)
    requires IsGrid(g, width, height)
  {
    exists c :: c in s && c in MineCells(g, width, height) && c !in revealed && c !in flags
  }

  /**
   * One direction of a chord: the neighbour in direction `k` was either
   * skipped (out of bounds, revealed or flagged) or revealed by a nested
   * reveal taking the state from `mid` to `after`.
   */
  lemma ChordStep(g: Grid, width: nat, height: nat, before: set<Cell>, beforeFlags: set<Cell>,
                  mid: set<Cell>, midFlags: set<Cell>, hitMid: bool,
                  after: set<Cell>, afterFlags: set<Cell>, hitAfter: bool, origin: Cell, k: nat)
    requires IsGrid(g, width, height) && k < |Directions|
    requires ChordProgress(g, width, height, before, beforeFlags, mid, midFlags, origin, k, hitMid)
    requires mid <= after && afterFlags == midFlags - (after - mid)
    requires ClosedOver(g, width, height, after, mid)
    requires ReachedOver(g, width, height, after, mid, {Step(origin, k)})
    requires var n := Step(origin, k);
             InBounds(n, width, height) && n !in mid && n !in midFlags ==>
               && n in after
               && (forall c :: c in after && c !in mid && c in MineCells(g, width, height) ==> c == n)
               && (hitAfter <==> hitMid || n in MineCells(g, width, height))
    requires var n := Step(origin, k);
             !(InBounds(n, width, height) && n !in mid && n !in midFlags) ==> after == mid && hitAfter == hitMid
    ensures ChordProgress(g, width, height, before, beforeFlags, after, afterFlags, origin, k + 1, hitAfter)
  {
    var n := Step(origin, k);
    StepsBelowNext(origin, width, height, k);
    StepNotBelow(origin, width, height, k);
    ClearedFlagsCompose(before, beforeFlags, mid, midFlags, after, afterFlags);
    HiddenMineStep(g, width, height, before, beforeFlags, origin, k);
    if InBounds(n, width, height) && n !in mid && n !in midFlags {
      assert n !in before && n !in beforeFlags;
      assert n in Neighbours(origin, width, height);
      FloodCompose(g, width, height, before, mid, after, Neighbours(origin, width, height) - beforeFlags, {n});
    } else {
      assert !(InBounds(n, width, height) && n in MineCells(g, width, height) && n !in before && n !in beforeFlags);
    }
  }

  /** Walking one more direction adds the cell in that direction to the candidates for a hidden mine. */
  lemma HiddenMineStep(g: Grid, width: nat, height: nat, revealed: set<Cell>, flags: set<Cell>, origin: Cell, k: nat)
    requires IsGrid(g, width, height) && k < |Directions|
    ensures var n := Step(origin, k);
            HiddenMineAmong(g, width, height, StepsBelow(origin, width, height, k + 1), revealed, flags) <==>
              || HiddenMineAmong(g, width, height, StepsBelow(origin, width, height, k), revealed, flags)
              || (InBounds(n, width, height) && n in MineCells(g, width, height) && n !in revealed && n !in flags)
  {
    var n := Step(origin, k);
    var walked, next := StepsBelow(origin, width, height, k), StepsBelow(origin, width, height, k + 1);
    StepsBelowNext(origin, width, height, k);
    if HiddenMineAmong(g, width, height, next, revealed, flags) {
      var c :| c in next && c in MineCells(g, width, height) && c !in revealed && c !in flags;
      if c != n {
        assert c in walked;
      }
    }
    if HiddenMineAmong(g, width, height, walked, revealed, flags) {
      var c :| c in walked && c in MineCells(g, width, height) && c !in revealed && c !in flags;
      assert c in next;
    }
    if InBounds(n, width, height) && n in MineCells(g, width, height) && n !in revealed && n !in flags {
      assert n in next;
    }
  }

  /** A hidden mine among cells that all end up revealed is a newly revealed mine. */
  lemma HiddenMineRevealed(g: Grid, width: nat, height: nat, s: set<Cell>, revealed: set<Cell>, flags: set<Cell>,
                           r: set<Cell>)
    requires IsGrid(g, width, height)
    requires HiddenMineAmong(g, width, height, s, revealed, flags)
    requires s - flags <= r
    ensures exists c :: c in r && c !in revealed && c in MineCells(g, width, height)
  {
    var c :| c in s && c in MineCells(g, width, height) && c !in revealed && c !in flags;
    assert c in r;
  }
}
