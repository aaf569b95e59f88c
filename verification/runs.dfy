/**
 Sequences of engine operations, as the game loop and the keyboard handler
 issue them, and what holds across a whole sequence.
 */
module Runs {
  import opened Geometry
  import opened Board
  import opened Game
  import Invariants

  /** One call into the engine; `drawn` is the food the call would place. */
  datatype Action = Advance(drawn: Pos) | Steer(d: Pos) | Pause | Restart(drawn: Pos)

  /** The action can be evaluated: a tick needs a head unless the game is stopped. */
  predicate CanApply(s: State, a: Action)
  {
    a.Advance? ==> s.gameOver || s.paused || |s.snake| > 0
  }

  function Apply(s: State, a: Action): State
    requires CanApply(s, a)
  {
    match a
    case Advance(f) => Move(s, f)
    case Steer(d) => ChangeDirection(s, d)
    case Pause => TogglePause(s)
    case Restart(f) => Reset(s, f)
  }

  /**
   The action is one the running game can produce: food lands on a free cell
   and the keyboard only requests unit directions. A restart is allowed in
   any state, as `reset_game` itself is; the restart key is the special case
   of a finished game.
   */
  predicate Legal(s: State, a: Action)
  {
    && CanApply(s, a)
    && match a
       case Advance(f) => Eats(s) ==> Free(s.width, s.height, [NextHead(s)] + s.snake, f)
       case Steer(d) => IsUnit(d)
       case Pause => true
       case Restart(f) => Free(s.width, s.height, [Center(s.width, s.height)], f)
  }

  predicate LegalRun(s: State, acts: seq<Action>)
    decreases |acts|
  {
    |acts| == 0 || (Legal(s, acts[0]) && LegalRun(Apply(s, acts[0]), acts[1..]))
  }

  function Run(s: State, acts: seq<Action>): State
    requires LegalRun(s, acts)
    decreases |acts|
  {
    if |acts| == 0 then s else Run(Apply(s, acts[0]), acts[1..])
  }

  /** Every legal operation keeps the invariant. */
  lemma ApplyPreservesValid(s: State, a: Action)
    requires Valid(s) && Legal(s, a)
    ensures Valid(Apply(s, a))
  {
    match a
    case Advance(f) => Invariants.MovePreservesValid(s, f);
    case Steer(d) => Invariants.ChangeDirectionPreservesValid(s, d);
    case Pause => Invariants.TogglePausePreservesValid(s);
    case Restart(f) => Invariants.ResetValid(s, f);
  }

  /** The invariant holds after any legal sequence of operations. */
  lemma {:induction false} RunPreservesValid(s: State, acts: seq<Action>)
    requires Valid(s) && LegalRun(s, acts)
    ensures Valid(Run(s, acts))
    decreases |acts|
  {
    if |acts| > 0 {
      ApplyPreservesValid(s, acts[0]);
      RunPreservesValid(Apply(s, acts[0]), acts[1..]);
    }
  }

  predicate AllAdvance(acts: seq<Action>)
  {
    forall i :: 0 <= i < |acts| ==> acts[i].Advance?
  }

  /**
   Over ticks alone, every segment gained is paid for by exactly one reward:
   with no food eaten the length is unchanged, and the score never falls.
   */
  lemma {:induction false} TicksBalanceLengthAndScore(s: State, acts: seq<Action>)
    requires LegalRun(s, acts) && AllAdvance(acts)
    ensures FoodReward * |Run(s, acts).snake| - Run(s, acts).score == FoodReward * |s.snake| - s.score
    ensures Run(s, acts).score >= s.score
    ensures Run(s, acts).score == s.score ==> |Run(s, acts).snake| == |s.snake|
    decreases |acts|
  {
    if |acts| > 0 {
      assert AllAdvance(acts[1..]) by {
        forall i | 0 <= i < |acts[1..]| ensures acts[1..][i].Advance? {
          assert acts[1..][i] == acts[i + 1];
        }
      }
      TicksBalanceLengthAndScore(Apply(s, acts[0]), acts[1..]);
    }
  }

  predicate NoRestart(acts: seq<Action>)
  {
    forall i :: 0 <= i < |acts| ==> !acts[i].Restart?
  }

  /**
   Once the game is over only a restart revives it: ticks and direction
   requests change nothing, and only the paused flag may still flip.
   */
  lemma {:induction false} GameOverIsSticky(s: State, acts: seq<Action>)
    requires s.gameOver && LegalRun(s, acts) && NoRestart(acts)
    ensures Run(s, acts) == s.(paused := Run(s, acts).paused)
    decreases |acts|
  {
    if |acts| > 0 {
      var next := Apply(s, acts[0]);
      assert next == s.(paused := next.paused);
      assert NoRestart(acts[1..]) by {
        forall i | 0 <= i < |acts[1..]| ensures !acts[1..][i].Restart? {
          assert acts[1..][i] == acts[i + 1];
        }
      }
      GameOverIsSticky(next, acts[1..]);
    }
  }

  /**
   Moving the head into the cell the tail is about to leave ends the game,
   although dropping the tail first would have left a valid snake.
   */
  lemma ChasingTheTailEndsGame(s: State, drawn: Pos)
    requires Valid(s) && Running(s)
    requires NextHead(s) == s.snake[|s.snake| - 1]
    ensures Move(s, drawn).gameOver
    ensures Valid(s.(snake := [NextHead(s)] + s.snake[..|s.snake| - 1]))
  {
    var head := NextHead(s);
    var body := s.snake[..|s.snake| - 1];
    var t := [head] + body;
    assert forall i :: 0 < i < |t| ==> t[i] == s.snake[i - 1];
    assert Adjacent(head, s.snake[0]) by {
      assert Pos(s.snake[0].x - head.x, s.snake[0].y - head.y) == Neg(s.direction);
    }
    assert head !in body;
    assert s.food !in t;
  }

  /**
   Two requests between ticks can reverse the snake: each is checked only
   against the direction set by the one before, so a perpendicular turn
   followed by the reverse turn is accepted, and the next tick drives the
   head into the neck.
   */
  lemma DoubleTurnReverses(s: State, d: Pos, drawn: Pos)
    requires Running(s) && IsUnit(s.direction) && |s.snake| >= 2
    requires s.snake[1] == Add(s.snake[0], Neg(s.direction))
    requires IsUnit(d) && d != s.direction && d != Neg(s.direction)
    ensures ChangeDirection(ChangeDirection(s, d), Neg(s.direction)).direction == Neg(s.direction)
    ensures Move(ChangeDirection(ChangeDirection(s, d), Neg(s.direction)), drawn).gameOver
  {
    var back := Neg(s.direction);
    var turned := ChangeDirection(s, d);
    assert Neg(d) != s.direction;
    assert turned == s.(direction := d);
    var t := ChangeDirection(turned, back);
    assert Pos(back.x * -1, back.y * -1) == s.direction != turned.direction;
    assert t == turned.(direction := back);
    assert NextHead(t) == s.snake[1] && s.snake[1] in t.snake;
    assert Collides(t);
  }

  /** From the centre of a 10 by 10 board, three ticks with no food ahead move the head to (8, 5). */
  lemma ThreeTicksRight()
    ensures LegalRun(Init(10, 10, Pos(1, 1)), [Advance(Pos(2, 2)), Advance(Pos(2, 2)), Advance(Pos(2, 2))])
    ensures var r := Run(Init(10, 10, Pos(1, 1)), [Advance(Pos(2, 2)), Advance(Pos(2, 2)), Advance(Pos(2, 2))]);
      r.snake == [Pos(8, 5)] && Running(r) && r.score == 0
  {
    var s0 := Init(10, 10, Pos(1, 1));
    var a := Advance(Pos(2, 2));
    var s1 := Move(s0, Pos(2, 2));
    assert s1 == s0.(snake := [Pos(6, 5)]);
    var s2 := Move(s1, Pos(2, 2));
    assert s2 == s0.(snake := [Pos(7, 5)]);
    var s3 := Move(s2, Pos(2, 2));
    assert s3 == s0.(snake := [Pos(8, 5)]);
    assert [a, a, a][1..] == [a, a] && [a, a][1..] == [a];
    assert LegalRun(s2, [a]) by {
      assert [a][1..] == [];
    }
  }

  /** Food directly ahead is eaten on the next tick, growing the snake and the score. */
  lemma EatFoodAhead()
    ensures var r := Move(Init(10, 10, Pos(6, 5)), Pos(2, 2));
      r.snake == [Pos(6, 5), Pos(5, 5)] && r.score == 10 && r.food == Pos(2, 2) && Running(r)
  {
  }

  /** A request to reverse is refused, and the next tick still moves right. */
  lemma ReverseRequestRefused()
    ensures var r := ChangeDirection(Init(10, 10, Pos(1, 1)), Left);
      r.direction == Right && Move(r, Pos(2, 2)).snake == [Pos(6, 5)]
  {
  }
}
