// The 20×20 board of the Snake game: coordinates, the bounds test, the
// occupancy test over the snake's segments and the shape every snake on the
// board keeps (on the board, no two segments on one cell).

module Board {

  /** Side of the square board, in cells. */
  const GridSize: int := 20

  /** A cell, or a direction vector when used as a step. */
  datatype Coord = Coord(x: int, y: int)

  /** Vector addition: the cell one step from `c` along `d`. */
  function Add(c: Coord, d: Coord): Coord {
    Coord(c.x + d.x, c.y + d.y)
  }

  /** The cell lies on the board: both coordinates in [0, GridSize). */
  predicate InGrid(c: Coord) {
    0 <= c.x < GridSize && 0 <= c.y < GridSize
  }

  /** Some segment of the snake lies on cell `c` (the `some` scan over the
      segments, compared field by field). */
  function Occupies(snake: seq<Coord>, c: Coord): (r: bool)
    ensures r <==> c in snake
    ensures r <==> exists i :: 0 <= i < |snake| && snake[i] == c
  {
    if snake == [] then false
    else (snake[0].x == c.x && snake[0].y == c.y) || Occupies(snake[1..], c)
  }

  /** No two segments share a cell. */
  ghost predicate Distinct(snake: seq<Coord>) {
    forall i, j :: 0 <= i < j < |snake| ==> snake[i] != snake[j]
  }

  /** The shape of every snake the game keeps: at least the head, every
      segment on the board, no two segments on the same cell. */
  ghost predicate WellFormed(snake: seq<Coord>) {
    |snake| >= 1 &&
    (forall i :: 0 <= i < |snake| ==> InGrid(snake[i])) &&
    Distinct(snake)
  }

  /** A cell on the board that no segment covers. */
  ghost predicate Free(snake: seq<Coord>, c: Coord) {
    InGrid(c) && c !in snake
  }

  // ---------------------------------------------------------------------
  // Counting cells: a free cell exists exactly when the snake is shorter
  // than the board has cells, so the food search only has nowhere to go
  // when the snake fills the whole board.

  /** Row-major number of a cell. */
  function Index(c: Coord): int {
    c.y * GridSize + c.x
  }

  /** The cell with row-major number `i`. */
  function CellAt(i: int): (c: Coord)
    requires 0 <= i < GridSize * GridSize
    ensures InGrid(c) && Index(c) == i
  {
    Coord(i % GridSize, i / GridSize)
  }

  /** Different cells on the board have different row-major numbers. */
  lemma IndexInjective(a: Coord, b: Coord)
    requires InGrid(a) && InGrid(b) && a != b
    ensures Index(a) != Index(b)
  {
  }

  /** The row-major numbers of the cells the snake covers. */
  ghost function Indices(snake: seq<Coord>): set<int> {
    set c | c in snake :: Index(c)
  }

  /** The numbers 0 .. n-1. */
  ghost function Below(n: nat): (s: set<int>)
    ensures forall i :: i in s <==> 0 <= i < n
    ensures |s| == n
  {
    if n == 0 then {} else Below(n - 1) + {n - 1}
  }

  lemma {:induction false} IndicesSize(snake: seq<Coord>)
    requires forall i :: 0 <= i < |snake| ==> InGrid(snake[i])
    requires Distinct(snake)
    ensures |Indices(snake)| == |snake|
  {
    if snake != [] {
      var rest := snake[1..];
      IndicesSize(rest);
      assert Indices(snake) == {Index(snake[0])} + Indices(rest) by {
        assert forall c :: c in snake <==> c == snake[0] || c in rest;
      }
      forall c | c in rest ensures Index(c) != Index(snake[0]) {
        var k :| 0 <= k < |rest| && rest[k] == c;
        assert snake[k + 1] == c;
        IndexInjective(c, snake[0]);
      }
    }
  }

  /** A well-formed snake leaves a free cell exactly when it is shorter
      than the number of cells on the board. */
  lemma FreeCellIffNotFull(snake: seq<Coord>)
    requires WellFormed(snake)
    ensures (exists c :: Free(snake, c)) <==> |snake| < GridSize * GridSize
  {
    var used := Indices(snake);
    var all := Below(GridSize * GridSize);
    IndicesSize(snake);
    assert used <= all by {
      forall i | i in used ensures i in all {
        var c :| c in snake && Index(c) == i;
      }
    }
    if |snake| < GridSize * GridSize {
      assert |all - used| > 0 by {
        assert |all - used| == |all| - |used|;
      }
      var i :| i in all - used;
      var c := CellAt(i);
      assert c !in snake;
      assert Free(snake, c);
    } else {
      assert all - used == {} by {
        assert |all - used| == |all| - |used|;
      }
      forall c | InGrid(c) ensures c in snake {
        assert Index(c) in all;
        var d :| d in snake && Index(d) == Index(c);
        var k :| 0 <= k < |snake| && snake[k] == d;
        if c != d {
          IndexInjective(c, d);
        }
      }
    }
  }
}
