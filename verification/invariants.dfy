/**
 The engine's invariant `Valid` is established by a new game and by a restart,
 and preserved by every other operation.
 */
module Invariants {
  import opened Geometry
  import opened Board
  import opened Game

  /** The constructor yields a valid state when the board has room for the food. */
  lemma InitValid(width: int, height: int, drawn: Pos)
    requires width >= 3 && height >= 3
    requires Free(width, height, [Center(width, height)], drawn)
    ensures Valid(Init(width, height, drawn))
  {
  }

  /** A normal (non-eating) move keeps the invariant. */
  lemma StepPreservesValid(s: State)
    requires Valid(s) && Running(s) && !Collides(s) && NextHead(s) != s.food
    ensures Valid(s.(snake := [NextHead(s)] + s.snake[..|s.snake| - 1]))
  {
    var head := NextHead(s);
    var body := s.snake[..|s.snake| - 1];
    var t := [head] + body;
    assert forall i :: 0 < i < |t| ==> t[i] == s.snake[i - 1];
    assert Adjacent(head, s.snake[0]) by {
      assert Pos(s.snake[0].x - head.x, s.snake[0].y - head.y) == Neg(s.direction);
    }
    assert head !in body;
    assert s.food !in t;
  }

  /** An eating move keeps the invariant when the new food lands on a free cell of the grown snake. */
  lemma GrowPreservesValid(s: State, drawn: Pos)
    requires Valid(s) && Eats(s)
    requires Free(s.width, s.height, [NextHead(s)] + s.snake, drawn)
    ensures Valid(s.(snake := [NextHead(s)] + s.snake, score := s.score + FoodReward, food := drawn))
  {
    var head := NextHead(s);
    var t := [head] + s.snake;
    assert forall i :: 0 < i < |t| ==> t[i] == s.snake[i - 1];
    assert Adjacent(head, s.snake[0]) by {
      assert Pos(s.snake[0].x - head.x, s.snake[0].y - head.y) == Neg(s.direction);
    }
  }

  /**
   Every tick keeps the invariant: a stopped game and a collision change no
   segment, a normal move shifts the snake by one cell, and eating grows it
   by one cell onto the old food.
   */
  lemma MovePreservesValid(s: State, drawn: Pos)
    requires Valid(s)
    requires Eats(s) ==> Free(s.width, s.height, [NextHead(s)] + s.snake, drawn)
    ensures Valid(Move(s, drawn))
  {
    if Running(s) && !Collides(s) {
      if Eats(s) {
        GrowPreservesValid(s, drawn);
      } else {
        StepPreservesValid(s);
      }
    }
  }

  /** Direction requests from the keyboard are unit vectors, and keep the invariant. */
  lemma ChangeDirectionPreservesValid(s: State, d: Pos)
    requires Valid(s) && IsUnit(d)
    ensures Valid(ChangeDirection(s, d))
  {
  }

  lemma TogglePausePreservesValid(s: State)
    requires Valid(s)
    ensures Valid(TogglePause(s))
  {
  }

  /** A restart yields a valid state from any state, when the new food lands on a free cell. */
  lemma ResetValid(s: State, drawn: Pos)
    requires s.width >= 3 && s.height >= 3
    requires Free(s.width, s.height, [Center(s.width, s.height)], drawn)
    ensures Valid(Reset(s, drawn))
  {
  }

  /**
   The food drawn after eating can be placed exactly when the grown snake is
   still shorter than the interior; when the eaten food completes the board,
   the game's food loop never ends.
   */
  lemma GrowthLeavesRoomIff(s: State)
    requires Valid(s) && Eats(s)
    ensures HasFreeCell(s.width, s.height, [NextHead(s)] + s.snake)
        <==> |s.snake| + 1 < InteriorSize(s.width, s.height)
  {
    var head := NextHead(s);
    var t := [head] + s.snake;
    assert forall i :: 0 < i < |t| ==> t[i] == s.snake[i - 1];
    FreeCellIff(s.width, s.height, t);
  }

  /**
   The constructor and a restart can place food exactly when the interior has
   at least two cells; on a 3 by 3 board they never return.
   */
  lemma StartLeavesRoomIff(width: int, height: int)
    requires width >= 3 && height >= 3
    ensures HasFreeCell(width, height, [Center(width, height)]) <==> InteriorSize(width, height) >= 2
  {
    FreeCellIff(width, height, [Center(width, height)]);
  }
}
