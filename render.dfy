// What the board shows: every cell classified as food, head, body or empty,
// listed row by row (y outer, x inner). The markup and colours drawn for
// each class are not modelled; only the classification is.

module Render {
  import opened Board

  /** How one cell is drawn. */
  datatype Cell = Empty | Body | Head | Food

  /** The class of cell (x, y): food wins over the head, the head over the
      rest of the body, and a cell nothing covers is empty. The head test
      is false for a snake without segments. */
  function Classify(snake: seq<Coord>, food: Coord, x: int, y: int): (c: Cell)
    ensures c == Food <==> food == Coord(x, y)
    ensures c == Head <==> food != Coord(x, y) && |snake| > 0 && snake[0] == Coord(x, y)
    ensures c == Body <==> food != Coord(x, y) && Coord(x, y) in snake
                           && snake[0] != Coord(x, y)
    ensures c == Empty <==> food != Coord(x, y) && Coord(x, y) !in snake
  {
    var isSnake := Occupies(snake, Coord(x, y));
    var isHead := |snake| > 0 && snake[0].x == x && snake[0].y == y;
    var isFood := food.x == x && food.y == y;
    if isFood then Food
    else if isHead then Head
    else if isSnake then Body
    else Empty
  }

  /** The whole board, GridSize rows of GridSize cells, row after row. */
  method RenderGrid(snake: seq<Coord>, food: Coord) returns (grid: seq<Cell>)
    ensures |grid| == GridSize * GridSize
    ensures forall y, x :: 0 <= y < GridSize && 0 <= x < GridSize ==>
              grid[y * GridSize + x] == Classify(snake, food, x, y)
  {
    grid := [];
    var y := 0;
    while y < GridSize
      invariant 0 <= y <= GridSize
      invariant |grid| == y * GridSize
      invariant forall yy, xx :: 0 <= yy < y && 0 <= xx < GridSize ==>
                  grid[yy * GridSize + xx] == Classify(snake, food, xx, yy)
    {
      var x := 0;
      while x < GridSize
        invariant 0 <= x <= GridSize
        invariant |grid| == y * GridSize + x
        invariant forall yy, xx :: 0 <= yy < y && 0 <= xx < GridSize ==>
                    grid[yy * GridSize + xx] == Classify(snake, food, xx, yy)
        invariant forall xx :: 0 <= xx < x ==>
                    grid[y * GridSize + xx] == Classify(snake, food, xx, y)
      {
        grid := grid + [Classify(snake, food, x, y)];
        x := x + 1;
      }
      y := y + 1;
    }
  }
}
