/** Concrete runs of the model on the game's own 21 x 17 board: the opening
    ramp from one segment to three, the reversal rule, leaving the board,
    running into the body, and the tick that hides the new apple under the
    snake. */
module Scenarios {
  import opened Geometry
  import opened Snake
  import opened SnakeGame
  import opened Invariants

  /** A fresh game starts at (10, 8), since 21 / 2 = 10 and 17 / 2 = 8, and
      with no apple in the way it grows to two and then three segments in
      its first two ticks, heading straight up. */
  lemma OpeningRamp()
    ensures var g0 := NewGame(BoardSize, Pos(0, 0));
            && g0.snake == [Segment(Pos(10, 8), Up)]
            && var t1 := Tick(g0, []);
            && t1.outcome == Continue
            && t1.game.snake == [Segment(Pos(10, 7), Up), Segment(Pos(10, 8), Up)]
            && var t2 := Tick(t1.game, []);
            && t2.outcome == Continue
            && t2.game.snake == [Segment(Pos(10, 6), Up), Segment(Pos(10, 7), Up), Segment(Pos(10, 8), Up)]
  {
    var g0 := NewGame(BoardSize, Pos(0, 0));
    var grown1 := Grown(g0);
    assert grown1 == [Segment(Pos(10, 7), Up), Segment(Pos(10, 9), Up)];
    MoveBodyStep(grown1[1..], Up, Pos(10, 7));
    var t1 := Tick(g0, []);
    assert t1.game.snake == [Segment(Pos(10, 7), Up), Segment(Pos(10, 8), Up)];
    var grown2 := Grown(t1.game);
    assert grown2 == [Segment(Pos(10, 6), Up), Segment(Pos(10, 8), Up), Segment(Pos(10, 9), Up)];
    MoveBodyStep(grown2[1..], Up, Pos(10, 6));
    MoveBodyStep(grown2[2..], Up, Pos(10, 6));
    assert grown2[1..][1..] == grown2[2..];
  }

  /** Heading up, a key for down is rejected and the next key, for left, is
      taken; a later key for right in the same frame is ignored. */
  lemma ReversalRejected()
    ensures var snake := [Segment(Pos(10, 8), Up), Segment(Pos(10, 9), Up)];
            && Steer(snake, Down) == snake
            && SteerByKeys(snake, [Some(Down), None, Some(Left), Some(Right)])
               == [Segment(Pos(10, 8), Left), Segment(Pos(10, 9), Up)]
  {
    var snake := [Segment(Pos(10, 8), Up), Segment(Pos(10, 9), Up)];
    var keys := [Some(Down), None, Some(Left), Some(Right)];
    assert keys[1..][1..] == [Some(Left), Some(Right)];
  }

  /** A head at (1, 5) heading left steps onto the sentinel column 0 and the
      tick ends with the body where it was. */
  lemma LeavingTheBoard()
    ensures var g := Game(0, [Segment(Pos(1, 5), Left), Segment(Pos(2, 5), Left), Segment(Pos(3, 5), Left)],
                          Pos(7, 7), BoardSize);
            var t := Tick(g, []);
            && t.outcome == LeftBoard
            && t.game.snake == [Segment(Pos(0, 5), Left), Segment(Pos(2, 5), Left), Segment(Pos(3, 5), Left)]
  {
  }

  /** A snake coiled around a square, heading up into its own tail. */
  function CoiledExample(): Game {
    Game(0, [Segment(Pos(5, 5), Up), Segment(Pos(6, 5), Left), Segment(Pos(6, 4), Down),
             Segment(Pos(5, 4), Right), Segment(Pos(4, 4), Right)],
         Pos(9, 9), BoardSize)
  }

  /** The coiled snake is a reachable shape: chained and on the board. */
  lemma CoiledExampleInv()
    ensures Inv(CoiledExample())
  {
    var g := CoiledExample();
    var s := g.snake;
    assert MoveSquare(s[1]).pos == Pos(5, 5);
    assert MoveSquare(s[2]).pos == Pos(6, 5);
    assert MoveSquare(s[3]).pos == Pos(6, 4);
    assert MoveSquare(s[4]).pos == Pos(5, 4);
    forall i | 0 <= i < |s|
      ensures InBoard(s[i].pos, g.board)
    {
    }
  }

  /** The head of the coiled snake steps up onto the cell its tail then
      steps into, and the tick ends in a collision. */
  lemma RunningIntoTheBody()
    ensures Inv(CoiledExample()) && Tick(CoiledExample(), []).outcome == SelfCollision
  {
    var g := CoiledExample();
    CoiledExampleInv();
    var grown := Grown(g);
    assert grown == HeadStepped(g);
    assert grown[0].pos == Pos(5, 4);
    assert MoveSquare(grown[4]).pos == Pos(5, 4);
    AdvanceOutcome(g);
  }

  /** A straight snake heading up, about to eat at (5, 4). */
  function NeckExample(): Game {
    Game(0, [Segment(Pos(5, 5), Up), Segment(Pos(5, 6), Up), Segment(Pos(5, 7), Up)],
         Pos(5, 4), BoardSize)
  }

  /** The straight snake is a reachable shape with a free apple in front of
      its head. */
  lemma NeckExampleInv()
    ensures Inv(NeckExample()) && AppleFree(NeckExample()) && EatsApple(NeckExample())
  {
    var g := NeckExample();
    var s := g.snake;
    assert MoveSquare(s[0]) == Segment(Pos(5, 4), Up);
    assert MoveSquare(s[1]) == Segment(Pos(5, 5), Up);
    assert MoveSquare(s[2]) == Segment(Pos(5, 6), Up);
    forall i | 0 <= i < |s|
      ensures InBoard(s[i].pos, g.board) && s[i].pos != g.apple
    {
    }
  }

  /** The tick from `NeckExample` grows the snake at (5, 8), leaves (5, 5)
      free until the body moves, and then runs with the neck on (5, 5). */
  lemma NeckExampleAdvance()
    ensures Inv(NeckExample()) && AppleFree(NeckExample()) && EatsApple(NeckExample())
    ensures AfterApple(NeckExample()) == [Segment(Pos(5, 4), Up), Segment(Pos(5, 6), Up),
                                          Segment(Pos(5, 7), Up), Segment(Pos(5, 8), Up)]
    ensures Advance(NeckExample()).outcome == AteApple
    ensures Advance(NeckExample()).snake == [Segment(Pos(5, 4), Up), Segment(Pos(5, 5), Up),
                                             Segment(Pos(5, 6), Up), Segment(Pos(5, 7), Up)]
  {
    NeckExampleInv();
    var g := NeckExample();
    var after := AfterApple(g);
    assert after == [Segment(Pos(5, 4), Up), Segment(Pos(5, 6), Up), Segment(Pos(5, 7), Up),
                     Segment(Pos(5, 8), Up)];
    assert Grown(g) == after;
    var body := after[1..];
    var head := Pos(5, 4);
    MoveBodyStep(body, Up, head);
    MoveBodyStep(body[1..], Up, head);
    MoveBodyStep(body[2..], Up, head);
    assert body[1..][1..] == body[2..];
    assert body[2..][1..] == [];
  }

  /** The apple placed by `Tick` can end the tick under the snake: the random
      source draws (5, 5), which is free while the body has not moved yet,
      and the neck then steps onto it. */
  lemma AppleHiddenUnderNeck()
    ensures var g := NeckExample();
            var draws := [Pos(5, 5), Pos(9, 9)];
            && Inv(g) && AppleFree(g) && CanPlaceApple(g, draws)
            && Tick(g, draws).outcome == AteApple
            && Tick(g, draws).game.apple == Pos(5, 5)
            && Tick(g, draws).game.snake[1].pos == Pos(5, 5)
            && !AppleFree(Tick(g, draws).game)
  {
    var g := NeckExample();
    var draws := [Pos(5, 5), Pos(9, 9)];
    NeckExampleAdvance();
    var after := AfterApple(g);
    assert !Occupied(after, Pos(5, 5));
    assert PlaceApple(after, draws) == Some(Pos(5, 5));
    var moved := Tick(g, draws).game.snake;
    assert moved[1].pos == Pos(5, 5);
  }

  /** Placing the apple at the end of the same tick rejects the draw (5, 5)
      and takes the next one, which is free of the moved snake. */
  lemma AppleLastSkipsNeck()
    ensures var g := NeckExample();
            var draws := [Pos(5, 5), Pos(9, 9)];
            && CanPlaceAppleLast(g, draws)
            && TickAppleLast(g, draws).game.apple == Pos(9, 9)
            && AppleFree(TickAppleLast(g, draws).game)
  {
    var g := NeckExample();
    var draws := [Pos(5, 5), Pos(9, 9)];
    NeckExampleAdvance();
    var moved := Advance(g).snake;
    assert moved[1].pos == Pos(5, 5);
    assert Occupied(moved, Pos(5, 5));
    assert !Occupied(moved, Pos(9, 9));
    assert PlaceApple(moved, draws[1..]) == Some(Pos(9, 9));
  }

  /** Why the invariant keeps a lone head away from the edges: on a board
      only 3 wide the fresh snake starts at (1, 1); turned right, it eats an
      apple drawn at (2, 1), and growing twice behind the stepped head puts
      the third segment at x = -1 before the boundary test runs. */
  lemma NarrowBoardGoesNegative()
    ensures var g := NewGame(Pos(3, 3), Pos(2, 1));
            var turned := g.(snake := Steer(g.snake, Right));
            && !Inv(g)
            && EatsApple(turned)
            && Grown(turned)[2].pos == Pos(-1, 1)
  {
  }
}
