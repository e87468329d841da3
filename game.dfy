// The Snake game's state machine: the fixed initial state, steering by the
// arrow keys, one movement step of the snake (wall hit, bite, eat, slide),
// placement of new food, and the game object whose handlers update its
// fields in place.

module Game {
  import opened Board

  // ---------------------------------------------------------------------
  // Initial state

  const InitialSnake: seq<Coord> := [Coord(10, 10)]
  const InitialFood: Coord := Coord(15, 15)
  const InitialDirection: Coord := Coord(0, -1)

  /** Points awarded for each food eaten. */
  const FoodScore: int := 10

  // ---------------------------------------------------------------------
  // Directions and steering

  const Up: Coord := Coord(0, -1)
  const Down: Coord := Coord(0, 1)
  const Left: Coord := Coord(-1, 0)
  const Right: Coord := Coord(1, 0)

  /** One of the four unit steps. */
  predicate IsUnit(d: Coord) {
    d == Up || d == Down || d == Left || d == Right
  }

  /** The exact reverse of a direction. */
  function Opposite(d: Coord): Coord {
    Coord(-d.x, -d.y)
  }

  predicate IsArrow(key: string) {
    key == "ArrowUp" || key == "ArrowDown" || key == "ArrowLeft" || key == "ArrowRight"
  }

  /** The direction an arrow key asks for. */
  function Requested(key: string): (d: Coord)
    requires IsArrow(key)
    ensures IsUnit(d)
  {
    if key == "ArrowUp" then Up
    else if key == "ArrowDown" then Down
    else if key == "ArrowLeft" then Left
    else Right
  }

  /** The direction after `key` is pressed in a running game. Each arrow is
      refused when the current direction points the opposite way along the
      arrow's own axis; any other key leaves the direction alone. For the
      unit directions the game keeps, this refuses exactly the reversal. */
  function Steer(direction: Coord, key: string): (r: Coord)
    ensures !IsArrow(key) ==> r == direction
    ensures IsArrow(key) && IsUnit(direction) ==>
              r == if Requested(key) == Opposite(direction) then direction else Requested(key)
    ensures IsUnit(direction) ==> IsUnit(r)
  {
    match key
    case "ArrowUp" => if direction.y != 1 then Up else direction
    case "ArrowDown" => if direction.y != -1 then Down else direction
    case "ArrowLeft" => if direction.x != 1 then Left else direction
    case "ArrowRight" => if direction.x != -1 then Right else direction
    case _ => direction
  }

  // ---------------------------------------------------------------------
  // One movement step, as a value

  /** What one step of the snake does: hit a wall, bite itself, eat the
      food (the body grows) or slide (the body keeps its length). */
  datatype Move = Wall | Bite | Eat(body: seq<Coord>) | Slide(body: seq<Coord>)

  /** The step from `snake` along `direction` with the food at `food`. The
      new head is tested against the bounds first and then against every
      current segment, the tail included even though a slide would vacate
      it. */
  function Advance(snake: seq<Coord>, direction: Coord, food: Coord): (m: Move)
    requires |snake| > 0
    ensures m == Wall <==> !InGrid(Add(snake[0], direction))
    ensures m == Bite <==> InGrid(Add(snake[0], direction)) && Add(snake[0], direction) in snake
    ensures m.Eat? <==> Free(snake, food) && Add(snake[0], direction) == food
    ensures m.Eat? ==> |m.body| == |snake| + 1 && m.body[0] == food && m.body[1..] == snake
    ensures m.Slide? ==> |m.body| == |snake| && m.body[0] == Add(snake[0], direction)
                         && m.body[1..] == snake[..|snake| - 1]
  {
    var head := Add(snake[0], direction);
    if head.x < 0 || head.x >= GridSize || head.y < 0 || head.y >= GridSize then Wall
    else if Occupies(snake, head) then Bite
    else
      var grown := [head] + snake;
      if head.x == food.x && head.y == food.y then Eat(grown)
      else Slide(grown[..|grown| - 1])
  }

  /** A step that does not end the game keeps the snake on the board with
      no two segments on one cell. */
  lemma AdvanceKeepsWellFormed(snake: seq<Coord>, direction: Coord, food: Coord)
    requires WellFormed(snake)
    ensures var m := Advance(snake, direction, food);
            (m.Eat? || m.Slide?) ==> WellFormed(m.body)
  {
  }

  /** Corollary of Advance's contract: moving onto the tail's cell is a
      bite, although a slide would have vacated that cell in the same step. */
  lemma TailCellBites(snake: seq<Coord>, direction: Coord, food: Coord)
    requires WellFormed(snake)
    requires Add(snake[0], direction) == snake[|snake| - 1]
    ensures Advance(snake, direction, food) == Bite
  {
  }

  /** Corollary of Advance's contract: the cell of the food just eaten is
      now under the head, and it is still a cell the food search may pick:
      it is on the board and not covered by the snake the search avoids,
      which is the snake as it was before the step. */
  lemma EatenCellStaysEligible(snake: seq<Coord>, direction: Coord, food: Coord)
    requires |snake| > 0 && Advance(snake, direction, food).Eat?
    ensures Advance(snake, direction, food).body[0] == food
    ensures Free(snake, food)
  {
  }

  /** The food search: some free cell of `snake`, chosen freely. It needs a
      free cell to exist; on a full board the search never ends. */
  method GenerateFood(snake: seq<Coord>) returns (f: Coord)
    requires exists c :: Free(snake, c)
    ensures InGrid(f) && f !in snake
  {
    ghost var c :| Free(snake, c);
    assert 0 <= c.x < GridSize && 0 <= c.y < GridSize && Coord(c.x, c.y) !in snake;
    var x, y :| 0 <= x < GridSize && 0 <= y < GridSize && Coord(x, y) !in snake;
    f := Coord(x, y);
  }

  // ---------------------------------------------------------------------
  // The game object

  /** The three stages of a game. */
  datatype Stage = NotStarted | Running | Over

  class SnakeGame {
    var snake: seq<Coord>
    var food: Coord
    var direction: Coord
    var score: int
    var gameStarted: bool
    var gameOver: bool
    /** The number of foods eaten since the last reset. */
    ghost var eaten: nat

    /** The invariant every handler keeps: a well-formed snake one segment
        longer than the foods eaten, ten points per food, food on the board,
        a unit direction, and an ended game is a started one. */
    ghost predicate Valid()
      reads this
    {
      WellFormed(snake) && InGrid(food) && IsUnit(direction) &&
      |snake| == 1 + eaten && score == FoodScore * eaten &&
      (gameOver ==> gameStarted)
    }

    function Stage(): Stage
      reads this
    {
      if gameOver then Over else if gameStarted then Running else NotStarted
    }

    ghost predicate IsInitial()
      reads this
    {
      snake == InitialSnake && food == InitialFood && direction == InitialDirection &&
      score == 0 && !gameStarted && !gameOver && eaten == 0
    }

    constructor ()
      ensures Valid() && IsInitial() && Stage() == NotStarted
    {
      snake := InitialSnake;
      food := InitialFood;
      direction := InitialDirection;
      score := 0;
      gameStarted := false;
      gameOver := false;
      eaten := 0;
    }

    /** Puts every field back to its initial value, from any stage. */
    method Reset()
      modifies this
      ensures Valid() && IsInitial() && Stage() == NotStarted
    {
      snake := InitialSnake;
      food := InitialFood;
      direction := InitialDirection;
      gameOver := false;
      score := 0;
      gameStarted := false;
      eaten := 0;
    }

    /** One timer tick. Before the start and after the end nothing changes.
        While running, the snake takes one Advance step: a wall hit or a
        bite ends the game and leaves the snake where it was; eating grows
        the snake, adds ten points and puts new food on a cell the old snake
        did not cover; a slide moves the snake and changes nothing else. */
    method Tick()
      requires Valid()
      modifies this
      ensures Valid()
      ensures direction == old(direction) && gameStarted == old(gameStarted)
      ensures old(Stage()) != Running ==>
                snake == old(snake) && food == old(food) && score == old(score) &&
                gameOver == old(gameOver) && eaten == old(eaten)
      ensures old(Stage()) == Running ==>
                var m := Advance(old(snake), old(direction), old(food));
                match m
                case Wall => gameOver && snake == old(snake) && food == old(food) && score == old(score)
                case Bite => gameOver && snake == old(snake) && food == old(food) && score == old(score)
                case Eat(body) =>
                  !gameOver && snake == body && score == old(score) + FoodScore &&
                  eaten == old(eaten) + 1 && InGrid(food) && food !in old(snake)
                case Slide(body) =>
                  !gameOver && snake == body && food == old(food) && score == old(score)
      ensures Stage() == old(Stage()) || (old(Stage()) == Running && Stage() == Over)
    {
      if !gameStarted || gameOver {
        return;
      }
      var head := Add(snake[0], direction);
      if head.x < 0 || head.x >= GridSize || head.y < 0 || head.y >= GridSize {
        gameOver := true;
        return;
      }
      if Occupies(snake, head) {
        gameOver := true;
        return;
      }
      AdvanceKeepsWellFormed(snake, direction, food);
      var grown := [head] + snake;
      if head.x == food.x && head.y == food.y {
        score := score + FoodScore;
        eaten := eaten + 1;
        assert Free(snake, head);
        // The search avoids the snake as it was before this step.
        food := GenerateFood(snake);
        snake := grown;
      } else {
        snake := grown[..|grown| - 1];
      }
    }

    /** A key press. Space starts a game that has not started. Otherwise
        keys are ignored unless the game is running, and an arrow key then
        steers, refusing a reversal. Nothing but the start flag and the
        direction ever changes. */
    method KeyPress(key: string)
      requires Valid()
      modifies this
      ensures Valid()
      ensures snake == old(snake) && food == old(food) && score == old(score) &&
              gameOver == old(gameOver) && eaten == old(eaten)
      ensures !old(gameStarted) && key == " " ==>
                gameStarted && direction == old(direction)
      ensures !(!old(gameStarted) && key == " ") ==>
                gameStarted == old(gameStarted) &&
                direction == if old(Stage()) == Running then Steer(old(direction), key)
                             else old(direction)
      ensures Stage() == old(Stage()) ||
              (old(Stage()) == NotStarted && key == " " && Stage() == Running)
    {
      if !gameStarted && key == " " {
        gameStarted := true;
        return;
      }
      if !gameStarted || gameOver {
        return;
      }
      direction := Steer(direction, key);
    }
  }

  /** The first tick of a fresh game moves the single segment one cell up
      and scores nothing. */
  method FirstTickScenario() {
    var g := new SnakeGame();
    g.KeyPress(" ");
    g.Tick();
    assert g.snake == [Coord(10, 9)];
    assert g.Stage() == Running && g.score == 0;
  }

  /** A reset after the game ends restores the initial state. */
  method ResetAfterOverScenario(g: SnakeGame)
    requires g.Valid() && g.gameOver
    modifies g
  {
    g.Reset();
    assert g.snake == InitialSnake && g.food == InitialFood;
    assert g.direction == InitialDirection && g.score == 0;
    assert g.Stage() == NotStarted;
  }

  /** Two arrows between ticks can reverse the snake: the guard looks at the
      pending direction, so Left then Down from Up is accepted, and the next
      tick runs the head into the second segment. */
  method DoubleTurnScenario(g: SnakeGame)
    requires g.Valid() && g.Stage() == Running
    requires g.snake == [Coord(10, 10), Coord(10, 11)] && g.direction == Up
    modifies g
  {
    g.KeyPress("ArrowLeft");
    assert g.direction == Left;
    g.KeyPress("ArrowDown");
    assert g.direction == Down;
    g.Tick();
    assert Advance([Coord(10, 10), Coord(10, 11)], Down, g.food) == Bite;
    assert g.gameOver && g.Stage() == Over;
    assert g.snake == [Coord(10, 10), Coord(10, 11)];
  }
}
