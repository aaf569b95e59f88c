/**
 The game-state engine: snake (head first), direction, food, score and the
 game-over and paused flags, with the operations the game loop and the
 keyboard handler call. Each operation is a pure function from state to
 state; the food a tick or a reset would draw is passed in as `drawn`, and
 the methods at the end choose it the way the game does, as some free cell.
 */
module Game {
  import opened Geometry
  import opened Board
  import Food

  /** Points awarded for each piece of food eaten. */
  const FoodReward := 10

  datatype State = State(
    width: int,
    height: int,
    snake: seq<Pos>,
    direction: Pos,
    food: Pos,
    score: int,
    gameOver: bool,
    paused: bool)

  /** The starting cell: the board centre, rounding down. */
  function Center(width: int, height: int): Pos
  {
    Pos(width / 2, height / 2)
  }

  /**
   The invariant every reachable state keeps: the snake is a non-empty,
   non-overlapping chain of adjacent interior cells, it moves in a unit
   direction, the food lies on a free cell, and the score counts the
   segments grown.
   */
  ghost predicate Valid(s: State)
  {
    && s.width >= 3 && s.height >= 3
    && |s.snake| >= 1
    && AllInterior(s.width, s.height, s.snake)
    && NoDuplicates(s.snake)
    && Connected(s.snake)
    && IsUnit(s.direction)
    && Free(s.width, s.height, s.snake, s.food)
    && s.score == FoodReward * (|s.snake| - 1)
  }

  predicate Running(s: State)
  {
    !s.gameOver && !s.paused
  }

  /** Where the head goes on the next tick. */
  function NextHead(s: State): Pos
    requires |s.snake| > 0
  {
    Add(s.snake[0], s.direction)
  }

  /** The next head hits a wall or any segment, the tail included. */
  predicate Collides(s: State)
    requires |s.snake| > 0
  {
    !InInterior(s.width, s.height, NextHead(s)) || NextHead(s) in s.snake
  }

  /** The next tick moves the head onto the food. */
  predicate Eats(s: State)
  {
    Running(s) && |s.snake| > 0 && !Collides(s) && NextHead(s) == s.food
  }

  /**
   A new game on a `width` by `height` board, with `drawn` as the food placed
   by the constructor.
   */
  function Init(width: int, height: int, drawn: Pos): (r: State)
    ensures r.width == width && r.height == height && r.food == drawn
    ensures r.snake == [Center(width, height)] && r.direction == Right
    ensures r.score == 0 && Running(r)
    ensures width >= 3 && height >= 3 && Free(width, height, r.snake, drawn) ==> Valid(r)
  {
    State(width, height, [Pos(width / 2, height / 2)], Pos(1, 0), drawn, 0, false, false)
  }

  /**
   One tick of the game. `drawn` is the food drawn if this tick eats; it is
   ignored otherwise.
   */
  function Move(s: State, drawn: Pos): (r: State)
    requires s.gameOver || s.paused || |s.snake| > 0
    ensures r.width == s.width && r.height == s.height
    ensures r.direction == s.direction && r.paused == s.paused
    ensures !Running(s) ==> r == s
    ensures Running(s) ==> (r.gameOver <==> Collides(s))
    ensures Running(s) && r.gameOver ==> r == s.(gameOver := true)
    ensures Running(s) && !r.gameOver ==>
      && |r.snake| > 0
      && r.snake[0] == NextHead(s)
      && r.snake[1..] == (if Eats(s) then s.snake else s.snake[..|s.snake| - 1])
    ensures Running(s) && !r.gameOver && Eats(s) ==>
      |r.snake| == |s.snake| + 1 && r.score == s.score + FoodReward && r.food == drawn
    ensures Running(s) && !r.gameOver && !Eats(s) ==>
      |r.snake| == |s.snake| && r.score == s.score && r.food == s.food
  {
    if s.gameOver || s.paused then s
    else
      var head := Pos(s.snake[0].x + s.direction.x, s.snake[0].y + s.direction.y);
      if head.x <= 0 || head.x >= s.width - 1 || head.y <= 0 || head.y >= s.height - 1 then
        s.(gameOver := true)
      else if head in s.snake then
        s.(gameOver := true)
      else if head == s.food then
        s.(snake := [head] + s.snake, score := s.score + 10, food := drawn)
      else
        s.(snake := [head] + s.snake[..|s.snake| - 1])
  }

  /**
   A direction request. Ignored once the game is over, and ignored when it is
   the exact reverse of the current direction; otherwise it takes effect at
   once.
   */
  function ChangeDirection(s: State, d: Pos): (r: State)
    ensures r == s || r == s.(direction := d)
    ensures s.gameOver ==> r == s
    ensures r.direction == Neg(s.direction) ==> r == s
    ensures !s.gameOver && IsUnit(s.direction) ==> (r.direction == d <==> d != Neg(s.direction))
  {
    if s.gameOver then s
    else if Pos(d.x * -1, d.y * -1) != s.direction then s.(direction := d)
    else s
  }

  /** The pause key: flips the paused flag, whatever the game-over flag says. */
  function TogglePause(s: State): (r: State)
    ensures r.paused != s.paused
    ensures r.(paused := s.paused) == s
  {
    s.(paused := !s.paused)
  }

  /**
   Restart on the same board, with `drawn` as the newly placed food. It is
   the same state the constructor builds.
   */
  function Reset(s: State, drawn: Pos): (r: State)
    ensures r == Init(s.width, s.height, drawn)
  {
    s.(snake := [Pos(s.width / 2, s.height / 2)], direction := Pos(1, 0), food := drawn,
       score := 0, gameOver := false, paused := false)
  }

  /** The constructor, placing its food on some free cell. */
  method NewGame(width: int, height: int) returns (s: State)
    requires HasFreeCell(width, height, [Center(width, height)])
    ensures s == Init(width, height, s.food)
    ensures Valid(s)
  {
    var food := Food.GenerateFood(width, height, [Center(width, height)]);
    s := Init(width, height, food);
  }

  /**
   A tick that draws drawn food when it eats. The drawing only ends if the
   grown snake leaves a free cell, so that is required of an eating tick.
   */
  method MoveSnake(s: State) returns (r: State)
    requires s.gameOver || s.paused || |s.snake| > 0
    requires Eats(s) ==> HasFreeCell(s.width, s.height, [NextHead(s)] + s.snake)
    ensures r == Move(s, r.food)
    ensures Eats(s) ==> Free(r.width, r.height, r.snake, r.food)
  {
    var drawn := s.food;
    if Eats(s) {
      drawn := Food.GenerateFood(s.width, s.height, [NextHead(s)] + s.snake);
    }
    r := Move(s, drawn);
  }

  /** A restart that draws drawn food for the single-segment snake. */
  method ResetGame(s: State) returns (r: State)
    requires HasFreeCell(s.width, s.height, [Center(s.width, s.height)])
    ensures r == Reset(s, r.food)
    ensures Valid(r)
  {
    var food := Food.GenerateFood(s.width, s.height, [Center(s.width, s.height)]);
    r := Reset(s, food);
  }
}
