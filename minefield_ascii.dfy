/** The text rendering of a minefield: one line per row, one character per cell. */
module MinefieldAscii {

  import opened CellTypes
  import opened Board
  import opened Minefields
  import opened Wrappers

  /** The character a cell kind is drawn as. */
  function GetCellTypeChar(c: CellType): (ch: char)
    ensures ch != '\n'
    ensures CellOfChar(ch) == Some(c)
  {
    match c
    case Empty => 'O'
    case Mine => '*'
    case One => '1'
    case Two => '2'
    case Three => '3'
    case Four => '4'
    case Five => '5'
    case Six => '6'
    case Seven => '7'
    case Eight => '8'
  }

  /** Reading a character back: the left inverse of the drawing; other characters name no kind. */
  function CellOfChar(ch: char): Option<CellType> {
    match ch
    case 'O' => Some(Empty)
    case '*' => Some(Mine)
    case '1' => Some(One)
    case '2' => Some(Two)
    case '3' => Some(Three)
    case '4' => Some(Four)
    case '5' => Some(Five)
    case '6' => Some(Six)
    case '7' => Some(Seven)
    case '8' => Some(Eight)
    case _ => None
  }

  /** Different kinds are drawn differently. */
  lemma CellCharInjective(c: CellType, d: CellType)
    requires GetCellTypeChar(c) == GetCellTypeChar(d)
    ensures c == d
  {
    assert CellOfChar(GetCellTypeChar(c)) == Some(c);
  }

  /** Row y: the cells of every column, left to right. */
  function Row(g: Grid, width: nat, height: nat, y: nat): (r: string)
    requires IsGrid(g, width, height) && y < height
    ensures |r| == width
  {
    seq(width, x requires 0 <= x < width => GetCellTypeChar(g[x][y]))
  }

  /** The text after the first `y` rows: each row followed by a line break unless it is the last row. */
  function RowsUpTo(g: Grid, width: nat, height: nat, y: nat): string
    requires IsGrid(g, width, height) && y <= height
  {
    if y == 0 then []
    else RowsUpTo(g, width, height, y - 1) + Row(g, width, height, y - 1) + (if y < height then "\n" else "")
  }

  /** The whole rendering. */
  function Ascii(g: Grid, width: nat, height: nat): string
    requires IsGrid(g, width, height)
  {
    RowsUpTo(g, width, height, height)
  }

  /** Rendering a minefield: rows by y from the top, columns by x, a line break between rows. */
  method ToAscii(minefield: Minefield) returns (s: string)
    requires minefield.Valid()
    ensures s == Ascii(minefield.cells, minefield.width, minefield.height)
  {
    ghost var g := minefield.cells;
    var width, height := minefield.width, minefield.height;
    s := [];
    for y := 0 to height
      invariant s == RowsUpTo(g, width, height, y)
    {
      var row := RowAscii(minefield, y);
      assert RowsUpTo(g, width, height, y + 1) == RowsUpTo(g, width, height, y) + row + (if y + 1 < height then "\n" else "");
      s := s + row;
      if y < height - 1 {
        s := s + "\n";
      }
    }
  }

  /** The characters of row y, column by column. */
  method RowAscii(minefield: Minefield, y: nat) returns (row: string)
    requires minefield.Valid() && y < minefield.height
    ensures row == Row(minefield.cells, minefield.width, minefield.height, y)
  {
    ghost var g, width, height := minefield.cells, minefield.width, minefield.height;
    row := [];
    for x := 0 to minefield.width
      invariant row == Row(g, width, height, y)[..x]
    {
      var cellType := minefield.GetCellType(x, y);
      row := row + [GetCellTypeChar(cellType)];
    }
  }

  /** After `y` rows the text has `y` full lines, each with its line break, except that the last row has none. */
  lemma {:induction false} RowsUpToLength(g: Grid, width: nat, height: nat, y: nat)
    requires IsGrid(g, width, height) && y <= height
    ensures |RowsUpTo(g, width, height, y)| == y * (width + 1) - (if y == height && height > 0 then 1 else 0)
  {
    if y > 0 {
      RowsUpToLength(g, width, height, y - 1);
      assert y * (width + 1) == (y - 1) * (width + 1) + width + 1;
    }
  }

  /** The rendering has `height` lines of `width` characters and no trailing line break. */
  lemma AsciiLength(g: Grid, width: nat, height: nat)
    requires IsGrid(g, width, height) && height > 0
    ensures |Ascii(g, width, height)| == width * height + height - 1
  {
    RowsUpToLength(g, width, height, height);
    assert height * (width + 1) == width * height + height;
  }

  /** Later rows only append: the text after `a` rows starts the text after `b >= a` rows. */
  lemma {:induction false} RowsUpToPrefix(g: Grid, width: nat, height: nat, a: nat, b: nat)
    requires IsGrid(g, width, height) && a <= b <= height
    ensures RowsUpTo(g, width, height, a) <= RowsUpTo(g, width, height, b)
    decreases b - a
  {
    if a < b {
      RowsUpToPrefix(g, width, height, a, b - 1);
    }
  }

  /**
   * Position of every cell and line break: the cell in column x of row y
   * sits at y * (width + 1) + x, and every row but the last is followed by
   * a line break.
   */
  lemma AsciiAt(g: Grid, width: nat, height: nat, x: nat, y: nat)
    requires IsGrid(g, width, height) && x < width && y < height
    ensures y * (width + 1) + x < |Ascii(g, width, height)|
    ensures Ascii(g, width, height)[y * (width + 1) + x] == GetCellTypeChar(g[x][y])
    ensures y < height - 1 ==> y * (width + 1) + width < |Ascii(g, width, height)|
    ensures y < height - 1 ==> Ascii(g, width, height)[y * (width + 1) + width] == '\n'
  {
    RowsUpToPrefix(g, width, height, y + 1, height);
    RowsUpToLength(g, width, height, y);
    RowsUpToLength(g, width, height, y + 1);
    RowsUpToLength(g, width, height, height);
    var before := RowsUpTo(g, width, height, y);
    var upTo := RowsUpTo(g, width, height, y + 1);
    assert |before| == y * (width + 1);
    assert upTo == before + Row(g, width, height, y) + (if y + 1 < height then "\n" else "");
    assert upTo[y * (width + 1) + x] == Row(g, width, height, y)[x];
    assert (y + 1) * (width + 1) - 1 == y * (width + 1) + width;
  }

  /** The cell in column x of row y read back from the text. */
  function CellAt(s: string, width: nat, x: nat, y: nat): Option<CellType> {
    var i := y * (width + 1) + x;
    if i < |s| then CellOfChar(s[i]) else None
  }

  /** Every cell can be read back from the rendering: the text determines the board. */
  lemma CellAtAscii(g: Grid, width: nat, height: nat, x: nat, y: nat)
    requires IsGrid(g, width, height) && x < width && y < height
    ensures CellAt(Ascii(g, width, height), width, x, y) == Some(g[x][y])
  {
    AsciiAt(g, width, height, x, y);
  }

  /** Boards of the same shape with the same rendering are equal. */
  lemma AsciiInjective(g1: Grid, g2: Grid, width: nat, height: nat)
    requires IsGrid(g1, width, height) && IsGrid(g2, width, height)
    requires Ascii(g1, width, height) == Ascii(g2, width, height)
    ensures g1 == g2
  {
    forall x, y | 0 <= x < width && 0 <= y < height
      ensures g1[x][y] == g2[x][y]
    {
      CellAtAscii(g1, width, height, x, y);
      CellAtAscii(g2, width, height, x, y);
    }
    GridExtensionality(g1, g2, width, height);
  }
}
