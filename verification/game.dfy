/** The game state and its per-tick transition (src/main.rs, `Game`):
    starting a game, placing an apple, the boundary test, and
    `Game::move_snake`, which steps the head, eats, grows, tests the board
    edge and then propagates the body. */
module SnakeGame {
  import opened Geometry
  import opened Snake

  /** The board the game is played on: 21 columns by 17 rows. */
  const BoardSize: Pos := Pos(21, 17)

  /** The state of one game. `board` holds the board's width and height;
      the tick interval of the settings is timing and is not modelled. */
  datatype Game = Game(score: nat, snake: seq<Segment>, apple: Pos, board: Pos)

  /** How a tick ended. The source's `move_snake` returns true for the two
      running outcomes and false for the two terminal ones. */
  datatype Outcome = Continue | AteApple | LeftBoard | SelfCollision {
    predicate Running() {
      Continue? || AteApple?
    }
  }

  datatype Step = Step(game: Game, outcome: Outcome)

  /** The playable range [1, W] x [1, H]. */
  predicate InBoard(p: Pos, board: Pos) {
    1 <= p.x <= board.x && 1 <= p.y <= board.y
  }

  predicate Occupied(snake: seq<Segment>, p: Pos) {
    exists i :: 0 <= i < |snake| && snake[i].pos == p
  }

  /** `Game::new`: a one-segment snake in the middle of the board heading up,
      score 0, and an apple drawn by the random source from [0, W) x [0, H)
      (note: not the playable range, and not checked against the snake). */
  function NewGame(board: Pos, apple: Pos): (g: Game)
    requires 0 <= apple.x < board.x && 0 <= apple.y < board.y
    ensures g.score == 0 && g.apple == apple && g.board == board
    ensures |g.snake| == 1 && g.snake[0].dir == Up
    ensures 2 * g.snake[0].pos.x <= board.x <= 2 * g.snake[0].pos.x + 1
    ensures 2 * g.snake[0].pos.y <= board.y <= 2 * g.snake[0].pos.y + 1
  {
    Game(0, [Segment(Pos(board.x / 2, board.y / 2), Up)], apple, board)
  }

  /** Every draw strictly before index `k` lands on the snake. */
  predicate OccupiedBefore(snake: seq<Segment>, draws: seq<Pos>, k: nat)
    requires k <= |draws|
  {
    forall j :: 0 <= j < k ==> Occupied(snake, draws[j])
  }

  /** `Game::place_apple`: the retry loop run over the cells the random
      source draws, in order; it settles on the first draw that is not on
      the snake. `None` means no draw in `draws` is free, so the source loop
      would still be drawing. */
  function PlaceApple(snake: seq<Segment>, draws: seq<Pos>): (r: Option<Pos>)
    ensures r.None? <==> OccupiedBefore(snake, draws, |draws|)
    ensures r.Some? ==> !Occupied(snake, r.value)
    ensures r.Some? ==> exists k :: 0 <= k < |draws| && draws[k] == r.value &&
                                    OccupiedBefore(snake, draws, k)
    decreases |draws|
  {
    if |draws| == 0 then None
    else if !Occupied(snake, draws[0]) then
      assert OccupiedBefore(snake, draws, 0);
      Some(draws[0])
    else
      var r := PlaceApple(snake, draws[1..]);
      assert forall k :: 1 <= k <= |draws| ==>
          OccupiedBefore(snake, draws, k) == OccupiedBefore(snake, draws[1..], k - 1);
      r
  }

  /** The random source draws each coordinate from [1, W] and [1, H]. */
  predicate DrawsInBoard(draws: seq<Pos>, board: Pos) {
    forall k :: 0 <= k < |draws| ==> InBoard(draws[k], board)
  }

  /** The placement loop yields exactly the free cells of the playable
      range: whatever it settles on is one, and each one is a possible
      outcome (the random source may draw it first). */
  lemma PlaceAppleChoosesFreeCells(snake: seq<Segment>, board: Pos, draws: seq<Pos>, c: Pos)
    requires DrawsInBoard(draws, board)
    ensures PlaceApple(snake, draws).Some? ==>
              InBoard(PlaceApple(snake, draws).value, board) &&
              !Occupied(snake, PlaceApple(snake, draws).value)
    ensures InBoard(c, board) && !Occupied(snake, c) ==>
              DrawsInBoard([c], board) && PlaceApple(snake, [c]) == Some(c)
  {
  }

  /** `Game::snake_left_board`: the head sits on one of the sentinel values
      0 and W + 1 (resp. H + 1). A head on the playable range is never
      reported, and within the one-cell frame around it the sentinel test
      is exactly leaving the playable range. */
  function SnakeLeftBoard(head: Pos, board: Pos): (r: bool)
    ensures InBoard(head, board) ==> !r
    ensures 0 <= head.x <= board.x + 1 && 0 <= head.y <= board.y + 1 ==>
              (r <==> !InBoard(head, board))
  {
    head.x == board.x + 1 || head.x == 0 || head.y == board.y + 1 || head.y == 0
  }

  /** For a head that steps from inside the board, testing only the sentinel
      values is the same as testing that it is outside the playable range. */
  lemma LeftBoardIffOutside(p: Pos, d: Direction, board: Pos)
    requires InBoard(p, board)
    ensures SnakeLeftBoard(MoveDirection(p, d), board) <==> !InBoard(MoveDirection(p, d), board)
  {
  }

  // The phases of `Game::move_snake`, in order.

  /** The snake after its head has stepped along its heading. */
  function HeadStepped(g: Game): seq<Segment>
    requires |g.snake| >= 1
  {
    g.snake[0 := MoveSquare(g.snake[0])]
  }

  predicate EatsApple(g: Game)
    requires |g.snake| >= 1
  {
    MoveSquare(g.snake[0]).pos == g.apple
  }

  /** The snake after eating, which grows it by one segment. */
  function AfterApple(g: Game): (r: seq<Segment>)
    requires |g.snake| >= 1
    ensures |r| >= 1 && r[0] == MoveSquare(g.snake[0])
    ensures |r| == |g.snake| + (if MoveSquare(g.snake[0]).pos == g.apple then 1 else 0)
    ensures r[1..|g.snake|] == g.snake[1..]
  {
    if EatsApple(g) then Grow(HeadStepped(g)) else HeadStepped(g)
  }

  /** The top-up that grows a short snake by one segment per tick. */
  function TopUp(snake: seq<Segment>): (r: seq<Segment>)
    requires |snake| >= 1
    ensures |snake| <= |r| <= |snake| + 1
    ensures r[..|snake|] == snake
    ensures |r| == |snake| <==> |snake| >= MinSnakeLen
  {
    if |snake| < MinSnakeLen then Grow(snake) else snake
  }

  /** The snake after all growth, just before the boundary test. */
  function Grown(g: Game): (r: seq<Segment>)
    requires |g.snake| >= 1
    ensures |r| >= 1 && r[0] == MoveSquare(g.snake[0])
    ensures var n := |g.snake| + (if MoveSquare(g.snake[0]).pos == g.apple then 1 else 0);
            |r| == if n < MinSnakeLen then n + 1 else n
  {
    TopUp(AfterApple(g))
  }

  datatype Movement = Movement(snake: seq<Segment>, outcome: Outcome)

  /** The snake and outcome of `Game::move_snake` (apple and score aside):
      after growth, a head on a sentinel ends the tick before the body moves;
      otherwise the body is propagated and any collision ends the tick. */
  function Advance(g: Game): (m: Movement)
    requires |g.snake| >= 1
    ensures |m.snake| == |Grown(g)| && m.snake[0] == Grown(g)[0]
    ensures m.outcome == LeftBoard <==> SnakeLeftBoard(m.snake[0].pos, g.board)
    ensures m.outcome == LeftBoard ==> m.snake == Grown(g)
    ensures m.outcome == AteApple ==> m.snake[0].pos == g.apple
  {
    var grown := Grown(g);
    var head := grown[0];
    if SnakeLeftBoard(head.pos, g.board) then Movement(grown, LeftBoard)
    else
      var p := MoveBody(grown[1..], head.dir, head.pos);
      Movement([head] + p.body,
               if p.collided then SelfCollision else if EatsApple(g) then AteApple else Continue)
  }

  /** What the random source must supply for `place_apple` to return: its
      draws lie in the playable range and, if an apple is eaten, one of them
      is free of the snake as it stands when the apple is placed. */
  predicate CanPlaceApple(g: Game, draws: seq<Pos>)
    requires |g.snake| >= 1
  {
    DrawsInBoard(draws, g.board) && (EatsApple(g) ==> PlaceApple(AfterApple(g), draws).Some?)
  }

  /** `Game::move_snake`, as written: the apple is re-placed right after the
      eating growth, against the snake whose body has not yet moved. */
  function Tick(g: Game, draws: seq<Pos>): (r: Step)
    requires |g.snake| >= 1
    requires CanPlaceApple(g, draws)
    ensures r.game.board == g.board
    ensures var n := |g.snake| + (if MoveSquare(g.snake[0]).pos == g.apple then 1 else 0);
            |r.game.snake| == if n < MinSnakeLen then n + 1 else n
    ensures r.game.snake[0] == MoveSquare(g.snake[0])
    ensures r.game.score == if r.game.snake[0].pos == g.apple then g.score + 1 else g.score
    ensures r.game.snake[0].pos != g.apple ==> r.game.apple == g.apple
    ensures r.game.snake[0].pos == g.apple ==>
              InBoard(r.game.apple, g.board) && !Occupied(AfterApple(g), r.game.apple)
    ensures r.game.snake == Advance(g).snake && r.outcome == Advance(g).outcome
  {
    var m := Advance(g);
    var ate := EatsApple(g);
    PlaceAppleChoosesFreeCells(AfterApple(g), g.board, draws, g.apple);
    Step(Game(if ate then g.score + 1 else g.score,
              m.snake,
              if ate then PlaceApple(AfterApple(g), draws).value else g.apple,
              g.board),
         m.outcome)
  }

  /** The body loop run behind the head of a snake reports a collision
      exactly when some segment behind the head steps onto the head's cell. */
  lemma CollidesBehindHead(grown: seq<Segment>)
    requires |grown| >= 1
    ensures MoveBody(grown[1..], grown[0].dir, grown[0].pos).collided <==>
              exists i :: 1 <= i < |grown| && MoveSquare(grown[i]).pos == grown[0].pos
  {
    var body := grown[1..];
    MoveBodyCollision(body, grown[0].dir, grown[0].pos);
    if MoveBody(body, grown[0].dir, grown[0].pos).collided {
      var k :| 0 <= k < |body| && MoveSquare(body[k]).pos == grown[0].pos;
      assert body[k] == grown[k + 1];
    } else {
      forall i | 1 <= i < |grown|
        ensures MoveSquare(grown[i]).pos != grown[0].pos
      {
        assert body[i - 1] == grown[i];
      }
    }
  }

  /** The outcome of the movement phase: it leaves the board exactly when the
      moved head is on a sentinel, and then no segment of the body has moved;
      otherwise it collides exactly when some segment of the grown body steps
      onto the moved head; otherwise it runs, reporting whether an apple was
      eaten. */
  lemma AdvanceOutcome(g: Game)
    requires |g.snake| >= 1
    ensures var m := Advance(g);
            var head := Grown(g)[0].pos;
            && (m.outcome == LeftBoard <==> SnakeLeftBoard(head, g.board))
            && (m.outcome == LeftBoard ==> m.snake == Grown(g))
            && (m.outcome == SelfCollision <==>
                  !SnakeLeftBoard(head, g.board) &&
                  exists i :: 1 <= i < |Grown(g)| && MoveSquare(Grown(g)[i]).pos == head)
            && (m.outcome == AteApple <==> m.outcome.Running() && head == g.apple)
  {
    CollidesBehindHead(Grown(g));
  }

  /** The snake grown by a tick keeps every body segment of the old snake. */
  lemma GrownKeepsBody(g: Game)
    requires |g.snake| >= 1
    ensures |Grown(g)| >= |g.snake|
    ensures forall i :: 1 <= i < |g.snake| ==> Grown(g)[i] == g.snake[i]
  {
    var a := AfterApple(g);
    assert forall i :: 1 <= i < |g.snake| ==> a[i] == g.snake[i];
  }

  /** The outcome of a tick: it leaves the board exactly when the moved head
      is on a sentinel, and then no segment of the body has moved; otherwise
      it collides exactly when some segment of the grown body steps onto the
      moved head; otherwise it runs, reporting whether an apple was eaten. */
  lemma TickOutcome(g: Game, draws: seq<Pos>)
    requires |g.snake| >= 1
    requires CanPlaceApple(g, draws)
    ensures var r := Tick(g, draws);
            && (r.outcome == LeftBoard <==> SnakeLeftBoard(r.game.snake[0].pos, g.board))
            && (r.outcome == LeftBoard ==>
                  forall i :: 1 <= i < |g.snake| ==> r.game.snake[i] == g.snake[i])
            && (r.outcome == SelfCollision <==>
                  !SnakeLeftBoard(r.game.snake[0].pos, g.board) &&
                  exists i :: 1 <= i < |Grown(g)| &&
                              MoveSquare(Grown(g)[i]).pos == r.game.snake[0].pos)
            && (r.outcome == AteApple <==> r.outcome.Running() && r.game.snake[0].pos == g.apple)
            && (r.outcome.Running() <==>
                  (!SnakeLeftBoard(r.game.snake[0].pos, g.board) &&
                   forall i :: 1 <= i < |Grown(g)| ==>
                                 MoveSquare(Grown(g)[i]).pos != r.game.snake[0].pos))
  {
    AdvanceOutcome(g);
    GrownKeepsBody(g);
  }

  /** The movement phase of a running tick that eats nothing on a
      full-length snake: every body segment steps along its own heading and
      takes over the heading of the segment in front of it. */
  lemma PlainAdvanceShifts(g: Game)
    requires |g.snake| >= MinSnakeLen
    requires !EatsApple(g) && Advance(g).outcome.Running()
    ensures |Advance(g).snake| == |g.snake|
    ensures forall i :: 1 <= i < |g.snake| ==>
              Advance(g).snake[i] == Segment(MoveSquare(g.snake[i]).pos, g.snake[i - 1].dir)
  {
    var grown := Grown(g);
    var body := g.snake[1..];
    assert grown[1..] == body;
    MoveBodyUncollided(body, g.snake[0].dir, grown[0].pos);
    var m := Advance(g);
    forall i | 1 <= i < |g.snake|
      ensures m.snake[i] == Segment(MoveSquare(g.snake[i]).pos, g.snake[i - 1].dir)
    {
      assert m.snake[i] == Shifted(body, g.snake[0].dir, i - 1);
      assert body[i - 1] == g.snake[i];
    }
  }

  /** A running tick that eats nothing on a full-length snake is a pure
      shift: length and score stay, the head steps along its heading, and
      every body segment steps along its own pre-tick heading and takes over
      the pre-tick heading of the segment in front of it. */
  lemma PlainTickShiftsHeadings(g: Game, draws: seq<Pos>)
    requires |g.snake| >= MinSnakeLen
    requires CanPlaceApple(g, draws)
    requires !EatsApple(g) && Tick(g, draws).outcome.Running()
    ensures var r := Tick(g, draws);
            && |r.game.snake| == |g.snake|
            && r.game.score == g.score
            && r.game.apple == g.apple
            && r.game.snake[0] == MoveSquare(g.snake[0])
            && forall i :: 1 <= i < |g.snake| ==>
                 r.game.snake[i].pos == MoveSquare(g.snake[i]).pos &&
                 r.game.snake[i].dir == g.snake[i - 1].dir
  {
    var r := Tick(g, draws);
    var m := Advance(g);
    assert r.game.snake == m.snake && m.outcome.Running();
    PlainAdvanceShifts(g);
    forall i | 1 <= i < |g.snake|
      ensures r.game.snake[i].pos == MoveSquare(g.snake[i]).pos
      ensures r.game.snake[i].dir == g.snake[i - 1].dir
    {
      assert m.snake[i] == Segment(MoveSquare(g.snake[i]).pos, g.snake[i - 1].dir);
    }
  }

  /** What the random source must supply when the apple is placed at the end
      of the tick: as above, against the snake the tick leaves behind. */
  predicate CanPlaceAppleLast(g: Game, draws: seq<Pos>)
    requires |g.snake| >= 1
  {
    DrawsInBoard(draws, g.board) && (EatsApple(g) ==> PlaceApple(Advance(g).snake, draws).Some?)
  }

  /** `Game::move_snake` with the apple placed after the body has moved, so
      that the cell the head just left and the topped-up tail are avoided
      too. It differs from `Tick` only in the apple it leaves. */
  function TickAppleLast(g: Game, draws: seq<Pos>): (r: Step)
    requires |g.snake| >= 1
    requires CanPlaceAppleLast(g, draws)
    ensures r.game.snake == Advance(g).snake && r.outcome == Advance(g).outcome
    ensures r.game.board == g.board
    ensures r.game.snake[0] == MoveSquare(g.snake[0])
    ensures r.game.score == if r.game.snake[0].pos == g.apple then g.score + 1 else g.score
    ensures r.game.snake[0].pos != g.apple ==> r.game.apple == g.apple
    ensures r.game.snake[0].pos == g.apple ==>
              InBoard(r.game.apple, g.board) && !Occupied(r.game.snake, r.game.apple)
  {
    var m := Advance(g);
    var ate := EatsApple(g);
    PlaceAppleChoosesFreeCells(m.snake, g.board, draws, g.apple);
    Step(Game(if ate then g.score + 1 else g.score,
              m.snake,
              if ate then PlaceApple(m.snake, draws).value else g.apple,
              g.board),
         m.outcome)
  }
}
