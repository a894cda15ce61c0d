# Snake simulation core, modelled in Dafny

This project models the simulation core of a small SDL snake game
(`src/main.rs`): the per-tick state transition `Game::move_snake` and its
helpers. It proves properties of that model. The pieces modelled are:

- the board geometry: `Direction`, `Direction::opposite` and `Vec2::move_direction`;
- the segment step `SnakeBody::move_square`;
- tail growth, `Game::grow_snake`, including the double push for a lone head;
- the boundary test `Game::snake_left_board`, with its sentinel values 0 and size + 1;
- the apple placement loop `Game::place_apple`;
- the starting state of `Game::new`;
- the steering rule of the input loop, which rejects 180° reversals and takes
  at most one turn per frame.

Files:

- `geometry.dfy` (module `Geometry`): headings, cells, opposites and one-cell steps.
- `snake.dfy` (module `Snake`): segments and segment steps, growth and steering.
  It also holds the body loop, once as a recursive function (`MoveBody`) and
  once as the in-place loop of the source (`MoveBodyLoop`), which is proved
  equal to the function.
- `game.dfy` (module `SnakeGame`): the game state, `NewGame`, `PlaceApple`,
  the boundary test and `Tick`. `Tick` returns the new state and one of the
  outcomes `Continue`, `AteApple`, `LeftBoard` or `SelfCollision`. The source
  returns `true` for the first two outcomes and `false` for the last two.
- `invariants.dfy` (module `Invariants`): the invariant of the states a game
  passes through, and the lemmas that follow from it.
- `scenarios.dfy` (module `Scenarios`): concrete runs on the game's 21 x 17 board.

Modelling choices:

- Coordinates are unbounded `int`s. The source stores them as `u32` and
  decrements them with `-= 1`. So instead of modelling machine arithmetic,
  `Invariants.NoNegativeCoordinates` proves that no coordinate computed
  during a tick from an invariant state goes below zero. The invariant holds
  for a fresh game on any board at least 4 x 4, and the shipped board is
  21 x 17. `Scenarios.NarrowBoardGoesNegative` shows that on a board 3 wide,
  a first-tick right turn into the initial apple pushes a grown segment to
  x = -1.
- Randomness is the one place the tick is nondeterministic. The random
  source is a parameter: a finite sequence of the cells it draws.
  `PlaceApple` is the retry loop over those draws and settles on the first
  free one. The tick requires that the draws lie in the playable range,
  which is what the source's `gen_range(1..=size)` yields. If an apple is
  eaten, it also requires that some draw is free, which is exactly the case
  in which the source loop ends. Every free cell is a possible outcome
  (`SnakeGame.PlaceAppleChoosesFreeCells`).
- The initial apple is a parameter of `NewGame`. It lies in [0, W) x [0, H),
  the range `Game::new` draws from. That range is not the playable one, and
  the cell is not checked against the snake.
- The snake starts at (W / 2, H / 2) with truncating division, which is
  (10, 8) on the 21 x 17 board. The apple is not guaranteed to be free of
  the snake at the end of a tick (see Findings).

## Model

| member | source | states |
|---|---|---|
| `Geometry.Opposite` | src/main.rs:340-349 | the opposite heading differs from its argument and lies on the same axis, so it is the other heading of that axis |
| `Geometry.OppositeInvolution` | src/main.rs:341-348 | taking the opposite twice gives back the heading; it never returns its argument |
| `Geometry.MoveDirection` | src/main.rs:322-329 | a step changes exactly one coordinate by exactly one: x stays iff the heading is vertical, y decreases iff Up, increases iff Down, x decreases iff Left, increases iff Right |
| `Geometry.MoveThenOppositeReturns` | src/main.rs:322-329 | a step along a heading followed by a step along its opposite returns to the start cell, in either order |
| `Geometry.MoveDirectionInjective` | src/main.rs:322-329 | two cells that reach the same cell along the same heading are the same cell |
| `Snake.MoveSquare` | src/main.rs:308-312 | the segment keeps its heading and moves to a neighbouring cell; stepping back along the opposite heading returns to the old cell |
| `Snake.Grow` | src/main.rs:193-209 | length grows by exactly one; all existing segments are unchanged; the new last segment has the old tail's heading; stepping it forward once along that heading reaches the old tail, or twice when the new length is 2 |
| `Snake.Steer` | src/main.rs:70-75 | a key is applied to the head iff it is not the opposite of the current heading; the head's cell and every other segment are unchanged; the head never ends up reversed |
| `Snake.SteerByKeys` | src/main.rs:52-79 | over one frame's keys, the first key the reversal rule accepts sets the head's heading; if no key is accepted the snake is unchanged; the body and the head's cell never change; the head is never reversed |
| `Snake.MoveBody` | src/main.rs:177-189 | the body loop returns as many segments as it was given |
| `Snake.MoveBodyCollision` | src/main.rs:180-188 | the loop reports a collision iff some segment, stepped along its own heading, lands on the head's cell |
| `Snake.MoveBodyAt` | src/main.rs:180-188 | a segment is moved and given its predecessor's old heading iff no segment before it hit the head's cell; otherwise the early return leaves it untouched |
| `Snake.MoveBodyCells` | src/main.rs:180-188 | the same, for every segment at once |
| `Snake.MoveBodySpec` | src/main.rs:177-189 | the loop reports a collision iff some moved segment lands on the head's cell; each segment up to and including the first collision moved along its own pre-tick heading and carries its predecessor's pre-tick heading (the head's for the first); every segment after it is untouched |
| `Snake.MoveBodyUncollided` | src/main.rs:180-189 | when the loop runs to the end, every segment moved along its own heading and carries its predecessor's old heading |
| `Snake.BodyLoopTurn` | src/main.rs:180-188 | one in-place turn of the loop keeps the processed prefix equal to the functional loop's result and leaves the rest of the snake untouched |
| `Snake.BodyLoopDone` | src/main.rs:180-190 | when the in-place loop runs off the end of the snake, all segments are processed and no collision was reported |
| `Snake.MoveBodyLoop` | src/main.rs:177-190 | the in-place loop with one carried heading and an early exit returns exactly the functional loop's body, and `true` iff no segment hit the head |
| `SnakeGame.NewGame` | src/main.rs:118-138 | score 0, the drawn apple, a single segment heading Up in the middle cell (twice its coordinate is the board size or one less) |
| `SnakeGame.PlaceApple` | src/main.rs:139-154 | the loop settles on a draw iff some draw is free; the cell it settles on is free and every earlier draw was on the snake |
| `SnakeGame.PlaceAppleChoosesFreeCells` | src/main.rs:140-153 | with draws from the playable range, the placed apple is on the board and on no segment, and every free board cell can be the outcome |
| `SnakeGame.SnakeLeftBoard` | src/main.rs:211-222 | a head on the playable range is never reported as off the board; within the one-cell frame around the board, the sentinel test holds iff the head is outside the playable range |
| `SnakeGame.LeftBoardIffOutside` | src/main.rs:211-222 | for a head stepping from inside the board, hitting a sentinel value 0 or size + 1 is the same as leaving the playable range |
| `SnakeGame.AfterApple` | src/main.rs:159-167 | the head has stepped along its heading; the snake is one segment longer iff the stepped head is on the apple, and every old body segment is unchanged |
| `SnakeGame.TopUp` | src/main.rs:168-170 | the old segments are kept in place; the snake grows by one segment iff it is shorter than the minimum length 3, and never by more |
| `SnakeGame.Grown` | src/main.rs:159-170 | after all growth the head has stepped, and the length is the old length plus one for an apple, plus one more if that is still below 3 |
| `SnakeGame.Advance` | src/main.rs:171-190 | the movement phase keeps the grown snake's length and stepped head; it ends `LeftBoard` iff the head is on a sentinel, and then the grown snake is returned unmoved; it reports `AteApple` only with the head on the apple |
| `SnakeGame.Tick` | src/main.rs:156-191 | the head moves one step along its heading; score rises by one iff the moved head is on the apple; length grows by one for an apple, plus one more while below the minimum length of 3; the board is kept; the apple is kept unless eaten, and otherwise re-placed on the board, free of the snake as it stands at placement |
| `SnakeGame.CollidesBehindHead` | src/main.rs:177-188 | the loop run behind the head of the snake collides iff some segment behind the head steps onto the head's cell |
| `SnakeGame.AdvanceOutcome` | src/main.rs:171-190 | the movement phase leaves the board iff the moved head is on a sentinel, and then returns the grown snake unmoved; it collides iff it does not leave and some grown segment steps onto the head; `AteApple` iff it runs and the head is on the apple |
| `SnakeGame.GrownKeepsBody` | src/main.rs:162-170 | growth during a tick never shortens the snake and keeps every old body segment in place |
| `SnakeGame.TickOutcome` | src/main.rs:171-190 | the tick leaves the board iff the moved head is on a sentinel, and then no old body segment has moved; it collides iff not, and some grown segment steps onto the moved head; it runs otherwise, reporting `AteApple` iff the head is on the old apple |
| `SnakeGame.PlainAdvanceShifts` | src/main.rs:177-189 | in a running movement phase that eats nothing on a snake of length at least 3, the length stays and each body segment moves along its own heading and takes the heading of the segment in front of it |
| `SnakeGame.PlainTickShiftsHeadings` | src/main.rs:177-189 | a running tick that eats nothing on a snake of length at least 3 keeps length, score and apple; the head moves along its heading; each body segment moves along its pre-tick heading and carries the pre-tick heading of the segment in front of it |
| `SnakeGame.TickAppleLast` | src/main.rs:162-167 | corrected placement: same snake and outcome as the tick, but an eaten apple is re-placed on the board and free of the snake the tick leaves |
| `Invariants.NewGameInv` | src/main.rs:118-125 | a fresh game on a board at least 4 x 4 satisfies the invariant: chained, on the board, lone head away from the edges |
| `Invariants.SteerKeepsInv` | src/main.rs:70-75 | steering keeps the invariant |
| `Invariants.GrowKeepsChain` | src/main.rs:193-209 | growing a snake whose head already stepped keeps it chained from the head's pre-step cell; for a lone head this needs the double push |
| `Invariants.GrownFacts` | src/main.rs:162-170 | growth during a tick adds at most two segments (two only to a lone head); it keeps the old body and the chain; it leaves every segment but the last on the board |
| `Invariants.PropagateChained` | src/main.rs:177-189 | on a chained snake, every body segment either keeps its place or takes over its predecessor's cell and heading; without a collision all of them do |
| `Invariants.AdvanceShift` | src/main.rs:177-190 | from an invariant state, the movement phase of a running tick leaves the moved head followed by the grown snake minus its last segment |
| `Invariants.TickShift` | src/main.rs:156-191 | after a running tick the snake is the moved head followed by the pre-tick grown snake minus its last segment: the body follows the head's path exactly |
| `Invariants.ShiftKeepsChain` | src/main.rs:177-189 | a chained snake shifted one cell along the head's path stays chained, and stays on the board when the new head cell and the kept segments are on it |
| `Invariants.AdvanceKeepsInv` | src/main.rs:156-191 | the movement phase of a running tick keeps the invariant |
| `Invariants.TickKeepsInv` | src/main.rs:156-191 | a running tick keeps the invariant; the snake never shrinks, and it grows by one each tick until it has at least 3 segments |
| `Invariants.GrownNonNegative` | src/main.rs:193-209 | from an invariant state, the moved head, the cell behind it and every grown segment, with the head on either cell, have no negative coordinate |
| `Invariants.AdvanceNonNegative` | src/main.rs:171-190 | the snake the movement phase leaves has no negative coordinate |
| `Invariants.PropagateNonNegative` | src/main.rs:180-188 | the body loop on a chained snake with no negative coordinate introduces none |
| `Invariants.NoNegativeCoordinates` | src/main.rs:322-329 | from an invariant state, the moved head, the cells growth passes through, every grown segment and every segment left by the tick have no negative coordinate |
| `Invariants.AppleLastKeepsAppleFree` | src/main.rs:139-167 | with the corrected placement, a running tick from an invariant state whose apple is free leaves the apple on the board and free of the snake |
| `Scenarios.OpeningRamp` | src/main.rs:118-125 | on the 21 x 17 board the snake starts at (10, 8) heading up; with no input and no apple in the way it reaches 2 and then 3 segments in straight line |
| `Scenarios.ReversalRejected` | src/main.rs:60-75 | heading Up, a Down key is rejected, the following Left key is taken and a later Right key in the same frame is ignored |
| `Scenarios.LeavingTheBoard` | src/main.rs:171-174 | a head at (1, 5) heading Left moves to (0, 5); the tick ends `LeftBoard` with the body unmoved |
| `Scenarios.CoiledExampleInv` | src/main.rs:177-189 | a five-segment snake coiled around a square is chained and on the board |
| `Scenarios.RunningIntoTheBody` | src/main.rs:185-188 | a coiled snake whose tail steps onto the head's new cell ends the tick with `SelfCollision` |
| `Scenarios.NeckExampleInv` | src/main.rs:162 | a straight three-segment snake with the apple just ahead of its head is chained and on the board, its apple is free, and its next step eats it |
| `Scenarios.NeckExampleAdvance` | src/main.rs:156-189 | a straight snake eating at (5, 4) grows at (5, 8), leaving (5, 5) free at placement time, and its neck then moves onto (5, 5) |
| `Scenarios.AppleHiddenUnderNeck` | src/main.rs:162-167 | the apple placed by the tick as written can end on the neck of the snake the tick leaves |
| `Scenarios.AppleLastSkipsNeck` | src/main.rs:162-167 | with the corrected placement the same draws put the apple on a free cell |
| `Scenarios.NarrowBoardGoesNegative` | src/main.rs:118-130 | on a 3 x 3 board the start state breaks the invariant, and a right turn into the initial apple grows a segment at x = -1 |

## Left out

- SDL setup, the event pump, the key-to-heading mapping, the restart loop and
  the `println!` messages (src/main.rs:17-95, 164, 172, 186) are input and
  output. The key loop is modelled from already-decoded keys (`SteerByKeys`).
- `draw_canvas` (src/main.rs:224-298) is rendering through a foreign canvas
  API, and line 254 would not compile.
- Frame pacing with `thread::sleep` and `f32` seconds, and the
  `snake_speed` setting, are timing and floating point. A tick that overruns
  the interval would make that duration negative and panic.
- `SmallRng::from_entropy` and the uniform distribution are left out. Draws
  are a parameter, and the model says nothing about uniformity or about the
  retry loop ending on its own.
- `u32` wrap-around and overflow panics are left out. Coordinates are `int`,
  and `NoNegativeCoordinates` shows the decrements stay at or above zero
  from invariant states.
- The `u16` score is a `nat`. A 21 x 17 board cannot hold enough segments
  to push the score near 65535.

## Findings

| source | as written | input that shows it | evidently intended | confidence | as-written member | corrected member |
|---|---|---|---|---|---|---|
| src/main.rs:162-170 | `place_apple` runs right after the eating growth. At that point the body has not yet moved and the top-up growth has not yet run, and the draw is checked only against that snake. | Board 21 x 17. Snake (5, 5) Up, (5, 6) Up, (5, 7) Up. Apple (5, 4). First draw (5, 5). The neck then steps onto (5, 5), so the apple ends the tick under the snake. | The apple lies on no segment of the snake the tick leaves. The comment at line 145 says the apple is re-drawn if it is on the snake. | medium; not executed | `SnakeGame.Tick`, shown by `Scenarios.AppleHiddenUnderNeck` | `SnakeGame.TickAppleLast`, proved by `Invariants.AppleLastKeepsAppleFree` |

`TickAppleLast` differs from `Tick` only in the apple it leaves. Its snake
and outcome are, by its contract, those of `Advance`, which `Tick` also
returns. So every lemma about the snake under `Tick` also holds under the
corrected tick.
