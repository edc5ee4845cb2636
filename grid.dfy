/**
 * The tile grid: cells, the Manhattan metric, tile lookup with its default,
 * the solidity predicate, and the `World` that parses a map text into tiles.
 */
module Grid {

  /** A grid cell, the `(x, y)` pair used as a dictionary key in the program. */
  datatype Cell = Cell(x: int, y: int)

  /**
   * What a lookup yields: a stored tile id, or `Unset` for a key that is not
   * in the map (the program returns the tuple `(0, 0)` there).
   */
  datatype Tile = Id(id: int) | Unset

  function Abs(n: int): nat
  {
    if n < 0 then -n else n
  }

  /** Distance in steps on a 4-connected grid with no obstacles. */
  function ManhattanDist(x1: int, y1: int, x2: int, y2: int): (d: nat)
    ensures d == 0 <==> x1 == x2 && y1 == y2
  {
    Abs(x1 - x2) + Abs(y1 - y2)
  }

  function Dist(a: Cell, b: Cell): nat
  {
    ManhattanDist(a.x, a.y, b.x, b.y)
  }

  /** One step apart, horizontally or vertically. */
  predicate Adjacent(a: Cell, b: Cell)
  {
    Dist(a, b) == 1
  }

  lemma DistSymmetric(a: Cell, b: Cell)
    ensures Dist(a, b) == Dist(b, a)
  {
  }

  /** A single step changes the distance to any fixed cell by exactly one. */
  lemma StepChangesDistByOne(a: Cell, b: Cell, t: Cell)
    requires Adjacent(a, b)
    ensures Dist(a, t) == Dist(b, t) + 1 || Dist(b, t) == Dist(a, t) + 1
  {
  }

  /** The triangle inequality of the Manhattan metric. */
  lemma DistTriangle(a: Cell, b: Cell, c: Cell)
    ensures Dist(a, c) <= Dist(a, b) + Dist(b, c)
  {
  }

  /**
   * The four orthogonal neighbours in the order the planner visits them:
   * up, left, right, down.
   */
  function Neighbours(c: Cell): (r: seq<Cell>)
    ensures |r| == 4
    ensures forall n :: n in r <==> Adjacent(c, n)
  {
    [Cell(c.x, c.y - 1), Cell(c.x - 1, c.y), Cell(c.x + 1, c.y), Cell(c.x, c.y + 1)]
  }

  /** `clamp(val, minimum, maximum)`, bounds 0 and 255 by default: the lower bound is tested first. */
  function Clamp(val: int, minimum: int := 0, maximum: int := 255): (r: int)
    ensures val < minimum ==> r == minimum
    ensures val >= minimum && val > maximum ==> r == maximum
    ensures minimum <= maximum ==> minimum <= r <= maximum
    ensures minimum <= val <= maximum ==> r == val
  {
    if val < minimum then minimum
    else if val > maximum then maximum
    else val
  }

  /** Clamping a value already clamped changes nothing. */
  lemma ClampIdempotent(val: int, minimum: int, maximum: int)
    requires minimum <= maximum
    ensures Clamp(Clamp(val, minimum, maximum), minimum, maximum) == Clamp(val, minimum, maximum)
  {
  }

  /** `get_tile`: the stored id, or the default for a cell never set. */
  function GetTile(tiles: map<Cell, int>, c: Cell): (t: Tile)
  {
    if c in tiles then Id(tiles[c]) else Unset
  }

  /** `is_solid`: only tile id 1 (a wall) blocks. */
  predicate IsSolid(t: Tile)
  {
    t == Id(1)
  }

  predicate SolidAt(tiles: map<Cell, int>, c: Cell)
  {
    IsSolid(GetTile(tiles, c))
  }

  /** A cell blocks exactly when it was stored with id 1; unset cells never block. */
  lemma SolidExactlyWalls(tiles: map<Cell, int>, c: Cell)
    ensures SolidAt(tiles, c) <==> c in tiles && tiles[c] == 1
    ensures c !in tiles ==> GetTile(tiles, c) == Unset && !SolidAt(tiles, c)
  {
  }

  /** No step through a non-solid cell leaves `s`. */
  ghost predicate ClosedUnder(tiles: map<Cell, int>, s: set<Cell>)
  {
    forall c, n :: c in s && n in Neighbours(c) && !SolidAt(tiles, n) ==> n in s
  }

  /** The cells strictly inside the `width` by `height` box. */
  function Interior(width: int, height: int): set<Cell>
  {
    set x, y | 1 <= x < width - 1 && 1 <= y < height - 1 :: Cell(x, y)
  }

  /** Every cell on the outer ring of the box is a wall. */
  ghost predicate BorderSolid(tiles: map<Cell, int>, width: int, height: int)
  {
    forall c: Cell ::
      && 0 <= c.x < width && 0 <= c.y < height
      && (c.x == 0 || c.y == 0 || c.x == width - 1 || c.y == height - 1)
      ==> SolidAt(tiles, c)
  }

  /**
   * A walled border makes the interior a finite region that no walk through
   * non-solid cells can leave; this is what bounds a search.
   */
  lemma InteriorClosed(tiles: map<Cell, int>, width: int, height: int)
    requires BorderSolid(tiles, width, height)
    ensures ClosedUnder(tiles, Interior(width, height))
  {
    forall c, n | c in Interior(width, height) && n in Neighbours(c) && !SolidAt(tiles, n)
      ensures n in Interior(width, height)
    {
      assert 0 <= n.x < width && 0 <= n.y < height;
      assert Cell(n.x, n.y) == n;
    }
  }

  /** The map text: a line starting with `#` is a comment. */
  predicate IsComment(line: string)
  {
    |line| > 0 && line[0] == '#'
  }

  /** The content lines of the text, in order, comments dropped. */
  function ContentRows(lines: seq<string>): (rows: seq<string>)
    ensures |rows| <= |lines|
  {
    if lines == [] then []
    else (if IsComment(lines[0]) then [] else [lines[0]]) + ContentRows(lines[1..])
  }

  lemma {:induction false} ContentRowsAppend(a: seq<string>, b: seq<string>)
    ensures ContentRows(a + b) == ContentRows(a) + ContentRows(b)
  {
    if a == [] {
      assert a + b == b;
    } else {
      assert (a + b)[1..] == a[1..] + b;
      ContentRowsAppend(a[1..], b);
    }
  }

  /**
   * The line that fills grid row `y`: the `y`-th content line, or the empty
   * line that reading past the end of the text yields.
   */
  function Row(lines: seq<string>, y: nat): string
  {
    var rows := ContentRows(lines);
    if y < |rows| then rows[y] else ""
  }

  predicate IsDigit(ch: char)
  {
    '0' <= ch <= '9'
  }

  function DigitValue(ch: char): int
    requires IsDigit(ch)
  {
    ch as int - '0' as int
  }

  /** Row `y` of the text has a digit at column `x`. */
  predicate DigitAt(lines: seq<string>, x: int, y: nat)
  {
    0 <= x < |Row(lines, y)| && IsDigit(Row(lines, y)[x])
  }

  /** The tile id the text gives cell `c`. */
  function CellValue(lines: seq<string>, c: Cell): int
    requires c.y >= 0 && DigitAt(lines, c.x, c.y)
  {
    DigitValue(Row(lines, c.y)[c.x])
  }

  /** The text fills every cell of the box: no row too short, no non-digit. */
  ghost predicate Loadable(lines: seq<string>, width: nat, height: nat)
  {
    forall x: int, y: nat :: 0 <= x < width && y < height ==> DigitAt(lines, x, y)
  }

  /** One `readline` at `next`: the line and the new position; the empty line at the end. */
  function ReadLine(lines: seq<string>, next: nat): (string, nat)
    requires next <= |lines|
  {
    if next < |lines| then (lines[next], next + 1) else ("", next)
  }

  /** After skipping comments from `start`, the line reached is row `y` of the grid. */
  lemma NextRow(lines: seq<string>, y: nat, start: nat, next: nat, line: string)
    requires start <= next <= |lines|
    requires |ContentRows(lines[..start])| == y || (start == |lines| && |ContentRows(lines)| < y)
    requires !IsComment(line)
    requires (next == |lines| && line == "" && ContentRows(lines[..next]) == ContentRows(lines[..start]))
          || (start < next && line == lines[next - 1] && ContentRows(lines[..next - 1]) == ContentRows(lines[..start]))
    ensures line == Row(lines, y)
    ensures |ContentRows(lines[..next])| == y + 1 || (next == |lines| && |ContentRows(lines)| < y + 1)
  {
    assert lines[..|lines|] == lines;
    if start < next && line == lines[next - 1] && ContentRows(lines[..next - 1]) == ContentRows(lines[..start]) {
      assert lines[..next] == lines[..next - 1] + [lines[next - 1]];
      ContentRowsAppend(lines[..next - 1], [lines[next - 1]]);
      assert ContentRows([lines[next - 1]]) == [line];
      assert lines == lines[..next] + lines[next..];
      ContentRowsAppend(lines[..next], lines[next..]);
    }
  }

  /**
   * The reads of one pass of `load`'s row loop from position `start`: one
   * `readline`, then more while the line is a comment. The line kept is
   * row `y` of the grid.
   */
  method ReadRow(lines: seq<string>, ghost y: nat, start: nat) returns (line: string, next: nat)
    requires start <= |lines|
    requires |ContentRows(lines[..start])| == y || (start == |lines| && |ContentRows(lines)| < y)
    ensures next <= |lines|
    ensures line == Row(lines, y)
    ensures |ContentRows(lines[..next])| == y + 1 || (next == |lines| && |ContentRows(lines)| < y + 1)
  {
    var read := ReadLine(lines, start);
    line, next := read.0, read.1;
    while IsComment(line)
      invariant start <= next <= |lines|
      invariant (next == |lines| && line == "" && ContentRows(lines[..next]) == ContentRows(lines[..start]))
             || (start < next && line == lines[next - 1] && ContentRows(lines[..next - 1]) == ContentRows(lines[..start]))
      decreases |lines| - next + (if IsComment(line) then 1 else 0)
    {
      assert lines[..next] == lines[..next - 1] + [lines[next - 1]];
      ContentRowsAppend(lines[..next - 1], [lines[next - 1]]);
      read := ReadLine(lines, next);
      line, next := read.0, read.1;
    }
    NextRow(lines, y, start, next, line);
  }

  /** The grid: its declared size and the tile ids stored so far. */
  class World {
    const width: nat
    const height: nat
    var tiles: map<Cell, int>

    constructor (width: nat, height: nat)
      ensures this.width == width && this.height == height && tiles == map[]
    {
      this.width := width;
      this.height := height;
      tiles := map[];
    }

    predicate InBox(c: Cell)
    {
      0 <= c.x < width && 0 <= c.y < height
    }

    /** `set_tile`: overwrite one cell. */
    method SetTile(tx: int, ty: int, tileType: int)
      modifies this
      ensures tiles == old(tiles)[Cell(tx, ty) := tileType]
    {
      tiles := tiles[Cell(tx, ty) := tileType];
    }

    /** Cells of the box that `Load` has written before reaching column `x` of row `y`. */
    predicate Filled(c: Cell, y: int, x: int)
    {
      InBox(c) && (c.y < y || (c.y == y && c.x < x))
    }

    /**
     * `t` is `t0` with every filled cell set from the text (whose cells up to
     * there are digits) and every other cell left as it was.
     */
    ghost predicate LoadedUpTo(t0: map<Cell, int>, t: map<Cell, int>, lines: seq<string>, y: int, x: int)
    {
      && (forall c :: c in t <==> c in t0 || Filled(c, y, x))
      && (forall c :: Filled(c, y, x) ==> c.y >= 0 && DigitAt(lines, c.x, c.y) && t[c] == CellValue(lines, c))
      && (forall c :: c in t0 && !Filled(c, y, x) ==> t[c] == t0[c])
    }

    lemma LoadedStep(t0: map<Cell, int>, t: map<Cell, int>, lines: seq<string>, y: nat, x: int)
      requires LoadedUpTo(t0, t, lines, y, x)
      requires 0 <= x < width && y < height && DigitAt(lines, x, y)
      ensures LoadedUpTo(t0, t[Cell(x, y) := CellValue(lines, Cell(x, y))], lines, y, x + 1)
    {
    }

    lemma LoadedNextRow(t0: map<Cell, int>, t: map<Cell, int>, lines: seq<string>, y: int)
      requires LoadedUpTo(t0, t, lines, y, width)
      ensures LoadedUpTo(t0, t, lines, y + 1, 0)
    {
      assert forall c :: Filled(c, y, width) <==> Filled(c, y + 1, 0);
    }

    /**
     * The inner loop of `load` for row `y`, whose text is `line`: store the
     * digit at each column as the tile there. `ok` is false where the
     * program raises.
     */
    method LoadRow(lines: seq<string>, y: nat, line: string, ghost t0: map<Cell, int>) returns (ok: bool)
      requires y < height && line == Row(lines, y)
      requires LoadedUpTo(t0, tiles, lines, y, 0)
      modifies this
      ensures ok <==> forall x :: 0 <= x < width ==> DigitAt(lines, x, y)
      ensures ok ==> LoadedUpTo(t0, tiles, lines, y + 1, 0)
    {
      for x: nat := 0 to width
        invariant forall x' :: 0 <= x' < x ==> DigitAt(lines, x', y)
        invariant LoadedUpTo(t0, tiles, lines, y, x)
      {
        if x >= |line| || !IsDigit(line[x]) {
          assert !DigitAt(lines, x, y);
          return false;
        }
        LoadedStep(t0, tiles, lines, y, x);
        SetTile(x, y, DigitValue(line[x]));
      }
      LoadedNextRow(t0, tiles, lines, y);
      return true;
    }

    /**
     * `load`: row by row, skip comment lines, and store the digit at column
     * `x` of the row as the tile at `(x, y)`. `ok` is false where the program
     * raises (a row too short, or a character that is not a digit).
     */
    method Load(lines: seq<string>) returns (ok: bool)
      modifies this
      ensures ok <==> Loadable(lines, width, height)
      ensures ok ==> forall c :: c in tiles <==> c in old(tiles) || InBox(c)
      ensures ok ==> forall c :: InBox(c) ==> DigitAt(lines, c.x, c.y) && tiles[c] == CellValue(lines, c)
      ensures ok ==> forall c :: c in old(tiles) && !InBox(c) ==> tiles[c] == old(tiles)[c]
    {
      var next: nat := 0;
      for y: nat := 0 to height
        invariant next <= |lines|
        invariant |ContentRows(lines[..next])| == y || (next == |lines| && |ContentRows(lines)| < y)
        invariant forall x: int, y': nat :: 0 <= x < width && y' < y ==> DigitAt(lines, x, y')
        invariant LoadedUpTo(old(tiles), tiles, lines, y, 0)
      {
        var line;
        line, next := ReadRow(lines, y, next);
        var rowOk := LoadRow(lines, y, line, old(tiles));
        if !rowOk {
          return false;
        }
      }
      assert forall c :: Filled(c, height, 0) <==> InBox(c);
      return true;
    }
  }
}
