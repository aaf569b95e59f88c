# Terminal Snake: the game-state engine

This project models the `SnakeGame` class of a terminal Snake game in Dafny.
The class is the game-state engine. It holds the snake (a sequence of cells,
head first), the current direction, the food cell, the score, and the
game-over and paused flags. It offers the operations the game loop and the
keyboard handler call:

- the constructor builds a one-segment snake at the board centre heading right;
- a tick (`move_snake`) moves the snake one cell;
- a direction request (`change_direction`) turns it;
- `reset_game` restarts the game;
- the pause key flips the paused flag.

Each operation is a pure function from state to state (`Game.Init`,
`Game.Move`, `Game.ChangeDirection`, `Game.TogglePause`, `Game.Reset`). The
food that a tick or a restart would draw is an explicit parameter (`drawn`).
The methods `Game.NewGame`, `Game.MoveSnake` and `Game.ResetGame` draw that
food the way the game does: some free interior cell, chosen by
`Food.GenerateFood`. `Food.GenerateFoodFromDraws` replays the game's
rejection loop over a finite prefix of the random stream.

`Game.Valid` is the engine invariant:

- the board is at least 3 by 3;
- the snake is a non-empty chain of adjacent interior cells with no repeats;
- the direction is a unit vector;
- the food lies on a free interior cell;
- the score is 10 per segment grown.

Module `Invariants` proves that the constructor and a restart establish it,
and that every operation keeps it. Module `Runs` lifts this to whole
sequences of operations, and proves the behaviours listed below.

Four behaviours of the code are modelled as written:

- A self collision is tested against the whole snake, the tail included, before the tail is dropped. `Runs.ChasingTheTailEndsGame` shows that moving into the cell the tail is about to leave ends the game, although the shifted snake would have been valid.
- A direction request takes effect at once. There is no pending direction for the next tick. The reversal check compares with the current direction, so two requests between ticks can reverse the snake into its own neck (`Runs.DoubleTurnReverses`). A design where requests wait for the next tick would reject that second request.
- The pause key flips `paused` even after the game is over (`snake_game.py:133` does not look at `game_over`). `Game.TogglePause` does the same.
- On a board of at least 3 by 3, the food loop never ends when no free interior cell remains. `Board.FreeCellIff` shows this happens exactly when the snake fills the interior. On a 3 by 3 board the constructor itself never returns (`Invariants.StartLeavesRoomIff`). The methods therefore require a free cell. An eating tick can place its food exactly when the grown snake is still shorter than the interior (`Invariants.GrowthLeavesRoomIff`).

## Model

| member | source | states |
|---|---|---|
| Food.GenerateFood | snake_game.py:19-24 | the returned food lies inside the walls and on no snake segment |
| Food.GenerateFoodFromDraws | snake_game.py:21-24 | the rejection loop returns the first draw not on the snake, after rejecting every earlier draw; it finds none exactly when every draw is on the snake |
| Board.FreeCellIff | snake_game.py:19-24 | for a non-overlapping snake inside the walls, a free cell exists (so the food loop ends) iff the snake is shorter than the interior |
| Game.Init | snake_game.py:9-17 | a new game has one segment at the centre, heads right, scores 0, is running, and is valid when the food lands on a free cell |
| Game.Move | snake_game.py:26-52 | a stopped game is unchanged; a running game ends iff the next head leaves the interior or meets any segment, the tail included, and then nothing else changes; otherwise the head advances one cell and the body shifts, with length and score unchanged, or grows by one segment and 10 points with new food when the head lands on the food |
| Game.ChangeDirection | snake_game.py:54-61 | the state changes at most in its direction; a finished game is unchanged; the direction never becomes the exact reverse of the current one; for a unit direction the request is accepted iff it is not the reverse |
| Game.TogglePause | snake_game.py:133 | the paused flag flips and nothing else changes |
| Game.Reset | snake_game.py:107-114 | a restart yields exactly the state the constructor builds on the same board |
| Game.NewGame | snake_game.py:9-17 | the constructor with its food drawn on a free cell yields a valid new game |
| Game.MoveSnake | snake_game.py:26-52 | a tick that draws its food yields a tick of the model, and food drawn after eating lies on a free cell of the grown snake |
| Game.ResetGame | snake_game.py:107-114 | a restart with its food drawn yields a valid new game on the same board |
| Invariants.InitValid | snake_game.py:9-17 | the constructor establishes the invariant on any board of at least 3 by 3 |
| Invariants.StepPreservesValid | snake_game.py:31-52 | a move that neither collides nor eats keeps the snake inside the walls, non-overlapping and connected, keeps the food off it, and keeps the score in step with its length |
| Invariants.GrowPreservesValid | snake_game.py:45-50 | eating keeps the invariant when the new food lands on a free cell of the grown snake |
| Invariants.MovePreservesValid | snake_game.py:26-52 | every tick keeps the invariant |
| Invariants.ChangeDirectionPreservesValid | snake_game.py:54-61 | a unit direction request keeps the invariant |
| Invariants.TogglePausePreservesValid | snake_game.py:133 | the pause toggle keeps the invariant |
| Invariants.ResetValid | snake_game.py:107-114 | a restart establishes the invariant from any state |
| Invariants.GrowthLeavesRoomIff | snake_game.py:45-50 | after eating, new food can be placed iff the grown snake is shorter than the interior |
| Invariants.StartLeavesRoomIff | snake_game.py:12-14 | the constructor can place its food iff the interior has at least two cells |
| Runs.ApplyPreservesValid | snake_game.py:26-61 | each engine operation with food on a free cell and a unit direction keeps the invariant |
| Runs.RunPreservesValid | snake_game.py:26-61 | the invariant holds after any such sequence of operations |
| Runs.TicksBalanceLengthAndScore | snake_game.py:45-52 | over ticks alone, ten times the length minus the score is constant, the score never falls, and with no food eaten the length is unchanged |
| Runs.GameOverIsSticky | snake_game.py:26-61 | after game over, ticks, direction requests and pause toggles change nothing but the paused flag |
| Runs.ChasingTheTailEndsGame | snake_game.py:41-43 | moving into the cell the tail is about to leave ends the game, though dropping the tail first would give a valid state |
| Runs.DoubleTurnReverses | snake_game.py:54-61 | a perpendicular request then a reverse request, both before one tick, are both accepted, and the next tick runs the head into the neck |
| Runs.ThreeTicksRight | snake_game.py:31-52 | on a 10 by 10 board, three ticks from the centre with no food ahead put the head at (8, 5) with length 1 and score 0 |
| Runs.EatFoodAhead | snake_game.py:45-50 | food directly ahead is eaten on the next tick: length 2, score 10, food replaced |
| Runs.ReverseRequestRefused | snake_game.py:59-61 | a request to reverse is refused, and the next tick still moves right |

## Left out

- Rendering (`draw`, snake_game.py:63-105): terminal output only, no game logic.
- The keyboard handler (`handle_input`, snake_game.py:116-144) is left out. It polls a foreign keyboard library, debounces with sleeps, and exits the process. Only its pause toggle is modelled (`Game.TogglePause`). Its direction keys are modelled as unit-vector requests. Its restart key calls `reset_game` only when the game is over (snake_game.py:137); the runs of module `Runs` allow `Restart` (that is, `Game.Reset`) in any state, which covers the key's guarded use as a special case.
- The game loop and start-up (`main`, snake_game.py:146-184): fixed-interval sleeping, thread start and banner printing are I/O and timing. The loop calls `move_snake` only while running, and `Game.Move` is already a no-op otherwise.
- Randomness: `random.randint` is not modelled. Food is any free interior cell, or a given finite sequence of draws.
- Food.GenerateFood, Game.NewGame, Game.MoveSnake, Game.ResetGame: these require a free cell to exist. On a board of at least 3 by 3 without one, the game's food loop never terminates, and that non-termination is not modelled.
- Game.NewGame, Food.GenerateFood: on a board narrower or shorter than 3 cells the interior is empty, and the first draw (`random.randint(1, width - 2)` or `random.randint(1, height - 2)`, snake_game.py:22) raises `ValueError` on its empty range. The required free cell excludes that case, so the raised error is not modelled.
- Concurrency: the keyboard thread and the tick loop share the object with no synchronisation. Each operation is modelled as atomic, and interleavings inside an operation are not modelled.
- A snake with no segments, which the game never builds, would make a tick fail on `self.snake[0]`. `Game.Move` requires a segment while the game is running.
