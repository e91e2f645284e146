/** The kind of a minefield cell: empty, a mine, or the number of adjacent mines (1 to 8). */
module CellTypes {

  datatype CellType = Empty | Mine | One | Two | Three | Four | Five | Six | Seven | Eight

  /** A numbered cell: neither empty nor a mine. */
  predicate IsNumber(c: CellType) {
    c != Empty && c != Mine
  }

  /** The adjacent-mine count a kind stands for; a mine stands for -1. */
  function AdjacentMineCount(c: CellType): (n: int)
    ensures -1 <= n <= 8
    ensures n == -1 <==> c == Mine
    ensures n == 0 <==> c == Empty
    ensures n > 0 <==> IsNumber(c)
  {
    match c
    case Empty => 0
    case Mine => -1
    case One => 1
    case Two => 2
    case Three => 3
    case Four => 4
    case Five => 5
    case Six => 6
    case Seven => 7
    case Eight => 8
  }

  /** The kind of a non-mine cell with `mineCount` adjacent mines; counts outside 0..8 fall back to Empty. */
  function OfMineCount(mineCount: int): (c: CellType)
    ensures c != Mine
    ensures 0 <= mineCount <= 8 ==> AdjacentMineCount(c) == mineCount
    ensures !(0 <= mineCount <= 8) ==> c == Empty
  {
    if mineCount == 1 then One
    else if mineCount == 2 then Two
    else if mineCount == 3 then Three
    else if mineCount == 4 then Four
    else if mineCount == 5 then Five
    else if mineCount == 6 then Six
    else if mineCount == 7 then Seven
    else if mineCount == 8 then Eight
    else Empty
  }

  /** Every kind other than a mine is recovered from its count. */
  lemma OfMineCountOfAdjacentMineCount(c: CellType)
    requires c != Mine
    ensures OfMineCount(AdjacentMineCount(c)) == c
  {
  }

  /** Only a count of zero (or an out-of-range count) gives an empty cell. */
  lemma OfMineCountEmpty(n: int)
    requires 0 <= n <= 8
    ensures OfMineCount(n) == Empty <==> n == 0
  {
  }
}
