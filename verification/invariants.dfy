/** Invariants of the states a game reaches, and what they buy: the body
    traces the head's path exactly, every segment stays on the board, and no
    coordinate computed during a tick goes below zero (the source stores
    coordinates as unsigned 32-bit integers and decrements them in
    `Vec2::move_direction`). */
module Invariants {
  import opened Geometry
  import opened Snake
  import opened SnakeGame

  /** Every non-head segment, stepped along its own heading, lands on the
      segment in front of it: the body lies on the path the head took. */
  predicate Chained(snake: seq<Segment>) {
    forall i :: 1 <= i < |snake| ==> MoveSquare(snake[i]).pos == snake[i - 1].pos
  }

  /** At least one cell away from every edge of the playable range. */
  predicate Interior(p: Pos, board: Pos) {
    2 <= p.x <= board.x - 1 && 2 <= p.y <= board.y - 1
  }

  predicate NonNegative(p: Pos) {
    p.x >= 0 && p.y >= 0
  }

  /** The invariant of every state a game passes through before it ends: a
      chained snake on the board; a snake that is still a lone head sits
      away from the edges, so that growing it twice behind itself stays on
      the board. */
  predicate Inv(g: Game) {
    && |g.snake| >= 1
    && Chained(g.snake)
    && (forall i :: 0 <= i < |g.snake| ==> InBoard(g.snake[i].pos, g.board))
    && (|g.snake| == 1 ==> Interior(g.snake[0].pos, g.board))
  }

  /** The apple is on the board and on no segment. */
  predicate AppleFree(g: Game) {
    InBoard(g.apple, g.board) && !Occupied(g.snake, g.apple)
  }

  /** A fresh game on a board at least 4 x 4 satisfies the invariant. */
  lemma NewGameInv(board: Pos, apple: Pos)
    requires board.x >= 4 && board.y >= 4
    requires 0 <= apple.x < board.x && 0 <= apple.y < board.y
    ensures Inv(NewGame(board, apple))
  {
  }

  /** Steering touches only the head's heading, which the invariant does not
      constrain. */
  lemma SteerKeepsInv(g: Game, keys: seq<Option<Direction>>)
    requires Inv(g)
    ensures Inv(g.(snake := SteerByKeys(g.snake, keys)))
  {
    var s := SteerByKeys(g.snake, keys);
    assert forall i :: 1 <= i < |s| ==> s[i] == g.snake[i];
  }

  /** The grown snake with its head put back on its pre-tick cell. */
  function GrownUnstepped(g: Game): (r: seq<Segment>)
    requires |g.snake| >= 1
    ensures |r| == |Grown(g)| && r[0] == g.snake[0]
  {
    Grown(g)[0 := g.snake[0]]
  }

  /** Growing a snake whose head has already stepped keeps the snake chained
      when the head is viewed on its pre-step cell. For a lone head this is
      exactly why `grow_snake` pushes the new segment back twice. */
  lemma GrowKeepsChain(s: seq<Segment>, head: Segment)
    requires |s| >= 1 && s[0] == MoveSquare(head)
    requires Chained(s[0 := head])
    ensures Grow(s)[0] == s[0]
    ensures Chained(Grow(s)[0 := head])
  {
    var r := Grow(s);
    var m := |s|;
    var t := r[0 := head];
    assert r[..m] == s;
    forall i | 1 <= i < |t|
      ensures MoveSquare(t[i]).pos == t[i - 1].pos
    {
      assert t[i - 1] == s[0 := head][i - 1];
      if i < m {
        assert t[i] == s[0 := head][i];
      } else if m == 1 {
        MoveDirectionInjective(MoveDirection(r[1].pos, r[1].dir), head.pos, head.dir);
      }
    }
  }

  /** What growth does to a snake satisfying the invariant: it keeps the old
      body, it is chained from the head's pre-tick cell, and every segment
      but possibly the last one is on the board. */
  lemma GrownFacts(g: Game)
    requires Inv(g)
    ensures var gr := Grown(g);
            var n := |g.snake|;
            && |gr| >= 2 && |gr| <= n + 2 && (n >= 2 ==> |gr| <= n + 1)
            && (forall i :: 1 <= i < n ==> gr[i] == g.snake[i])
            && Chained(GrownUnstepped(g))
            && (forall j :: 0 <= j < |gr| - 1 ==> InBoard(GrownUnstepped(g)[j].pos, g.board))
  {
    var p := g.snake;
    var n := |p|;
    var hs := HeadStepped(g);
    assert hs[0 := p[0]] == p;
    var a := AfterApple(g);
    if EatsApple(g) {
      GrowKeepsChain(hs, p[0]);
    }
    assert Chained(a[0 := p[0]]);
    assert forall i :: 1 <= i < n ==> a[i] == p[i];
    var gr := Grown(g);
    if |a| < MinSnakeLen {
      GrowKeepsChain(a, p[0]);
    }
    var u := GrownUnstepped(g);
    assert Chained(u);
    assert forall i :: 1 <= i < n ==> gr[i] == p[i];
    forall j | 0 <= j < |gr| - 1
      ensures InBoard(u[j].pos, g.board)
    {
      if j >= n {
        assert n == 1 && j == 1;
        assert MoveDirection(u[1].pos, u[1].dir) == p[0].pos;
        MoveThenOppositeReturns(u[1].pos, u[1].dir);
      }
    }
  }

  /** The body loop run on a chained snake whose head has just stepped:
      each segment either stays put (behind a collision) or takes over the
      cell and heading of the segment in front of it; without a collision
      all of them do. */
  lemma PropagateChained(u: seq<Segment>)
    requires |u| >= 1 && Chained(u)
    ensures var p := MoveBody(u[1..], u[0].dir, MoveSquare(u[0]).pos);
            && (forall j :: 0 <= j < |u| - 1 ==> p.body[j] == u[j] || p.body[j] == u[j + 1])
            && (!p.collided ==> p.body == u[..|u| - 1])
  {
    var body := u[1..];
    var head := MoveSquare(u[0]).pos;
    MoveBodySpec(body, u[0].dir, head);
    var p := MoveBody(body, u[0].dir, head);
    forall j | 0 <= j < |u| - 1
      ensures p.body[j] == u[j] || p.body[j] == u[j + 1]
    {
      assert body[j] == u[j + 1];
      if NoHitBefore(body, head, j) {
        assert p.body[j] == Shifted(body, u[0].dir, j);
        assert MoveSquare(u[j + 1]).pos == u[j].pos;
      }
    }
    if !p.collided {
      forall j | 0 <= j < |u| - 1
        ensures p.body[j] == u[j]
      {
        assert NoHitBefore(body, head, j);
        assert body[j] == u[j + 1];
        assert p.body[j] == Shifted(body, u[0].dir, j);
        assert MoveSquare(u[j + 1]).pos == u[j].pos;
      }
    }
  }

  /** The moved snake of a tick that passes the boundary test is the moved
      head followed by the body loop run on the grown snake. */
  lemma AdvanceBody(g: Game)
    requires |g.snake| >= 1
    requires !SnakeLeftBoard(MoveSquare(g.snake[0]).pos, g.board)
    ensures var u := GrownUnstepped(g);
            var p := MoveBody(u[1..], u[0].dir, MoveSquare(u[0]).pos);
            && Advance(g).snake == [MoveSquare(g.snake[0])] + p.body
            && (Advance(g).outcome.Running() <==> !p.collided)
  {
    var u := GrownUnstepped(g);
    var grown := Grown(g);
    assert grown[1..] == u[1..];
  }

  /** The movement phase of a running tick shifts the snake by one cell
      along the head's path. */
  lemma AdvanceShift(g: Game)
    requires Inv(g) && Advance(g).outcome.Running()
    ensures var u := GrownUnstepped(g);
            Advance(g).snake == [MoveSquare(g.snake[0])] + u[..|u| - 1]
  {
    GrownFacts(g);
    AdvanceBody(g);
    PropagateChained(GrownUnstepped(g));
  }

  /** The shift-register theorem: after a running tick the snake is the
      moved head followed by the pre-tick (grown) snake minus its last
      segment, cell for cell and heading for heading. So the body follows
      the head's path exactly, one cell per segment. */
  lemma TickShift(g: Game, draws: seq<Pos>)
    requires Inv(g) && CanPlaceApple(g, draws)
    requires Tick(g, draws).outcome.Running()
    ensures var gr := GrownUnstepped(g);
            Tick(g, draws).game.snake == [MoveSquare(g.snake[0])] + gr[..|gr| - 1]
  {
    AdvanceShift(g);
  }

  /** A chained snake shifted by one cell along the head's path stays
      chained, and it stays on the board when the new head cell and all
      the kept segments are. */
  lemma ShiftKeepsChain(u: seq<Segment>, board: Pos)
    requires |u| >= 2 && Chained(u)
    requires forall j :: 0 <= j < |u| - 1 ==> InBoard(u[j].pos, board)
    requires InBoard(MoveSquare(u[0]).pos, board)
    ensures var s := [MoveSquare(u[0])] + u[..|u| - 1];
            && Chained(s)
            && forall i :: 0 <= i < |s| ==> InBoard(s[i].pos, board)
  {
    var s := [MoveSquare(u[0])] + u[..|u| - 1];
    forall i | 1 <= i < |s|
      ensures MoveSquare(s[i]).pos == s[i - 1].pos
    {
      assert s[i] == u[i - 1];
      if i >= 2 {
        assert s[i - 1] == u[i - 2];
      }
    }
    forall i | 0 <= i < |s|
      ensures InBoard(s[i].pos, board)
    {
      if i >= 1 {
        assert s[i] == u[i - 1];
      }
    }
  }

  /** A running tick keeps the invariant, and the snake is topped up toward
      the minimum length by at least one segment per tick. */
  lemma TickKeepsInv(g: Game, draws: seq<Pos>)
    requires Inv(g) && CanPlaceApple(g, draws)
    requires Tick(g, draws).outcome.Running()
    ensures Inv(Tick(g, draws).game)
    ensures |Tick(g, draws).game.snake| >= |g.snake|
    ensures |Tick(g, draws).game.snake| >= |g.snake| + 1 || |Tick(g, draws).game.snake| >= MinSnakeLen
  {
    AdvanceKeepsInv(g);
    var r := Tick(g, draws).game;
    assert r == r.(snake := Advance(g).snake);
  }

  /** The movement phase of a running tick keeps the invariant. */
  lemma AdvanceKeepsInv(g: Game)
    requires Inv(g) && Advance(g).outcome.Running()
    ensures Inv(g.(snake := Advance(g).snake))
  {
    GrownFacts(g);
    AdvanceOutcome(g);
    AdvanceShift(g);
    LeftBoardIffOutside(g.snake[0].pos, g.snake[0].dir, g.board);
    ShiftKeepsChain(GrownUnstepped(g), g.board);
  }

  /** No coordinate of the grown snake is negative, nor the stepped head, nor
      the cell behind it where a lone head's first new segment goes. */
  lemma GrownNonNegative(g: Game)
    requires Inv(g)
    ensures NonNegative(MoveSquare(g.snake[0]).pos)
    ensures NonNegative(MoveDirection(MoveSquare(g.snake[0]).pos, Opposite(g.snake[0].dir)))
    ensures forall i :: 0 <= i < |Grown(g)| ==> NonNegative(Grown(g)[i].pos)
    ensures forall i :: 0 <= i < |Grown(g)| ==> NonNegative(GrownUnstepped(g)[i].pos)
  {
    GrownFacts(g);
    var grown := Grown(g);
    var u := GrownUnstepped(g);
    var n := |grown|;
    forall i | 0 <= i < n
      ensures NonNegative(u[i].pos)
    {
      if i == n - 1 {
        assert MoveDirection(u[i].pos, u[i].dir) == u[i - 1].pos;
      }
    }
    forall i | 0 <= i < n
      ensures NonNegative(grown[i].pos)
    {
      if i >= 1 {
        assert grown[i] == u[i];
      }
    }
  }

  /** No coordinate goes negative during a tick from a state satisfying the
      invariant: not the stepped head, not any cell growth passes through or
      puts a segment on (all before the boundary test), and not any segment
      of the state the tick leaves, whatever its outcome. */
  lemma NoNegativeCoordinates(g: Game, draws: seq<Pos>)
    requires Inv(g) && CanPlaceApple(g, draws)
    ensures NonNegative(MoveSquare(g.snake[0]).pos)
    ensures NonNegative(MoveDirection(MoveSquare(g.snake[0]).pos, Opposite(g.snake[0].dir)))
    ensures forall i :: 0 <= i < |Grown(g)| ==> NonNegative(Grown(g)[i].pos)
    ensures forall i :: 0 <= i < |Tick(g, draws).game.snake| ==>
              NonNegative(Tick(g, draws).game.snake[i].pos)
  {
    GrownNonNegative(g);
    AdvanceNonNegative(g);
    assert Tick(g, draws).game.snake == Advance(g).snake;
  }

  /** The movement phase leaves no negative coordinate: the snake it returns
      is either the grown snake or the moved head followed by segments on
      cells the grown snake held. */
  lemma AdvanceNonNegative(g: Game)
    requires Inv(g)
    ensures forall i :: 0 <= i < |Advance(g).snake| ==> NonNegative(Advance(g).snake[i].pos)
  {
    GrownNonNegative(g);
    if !SnakeLeftBoard(Grown(g)[0].pos, g.board) {
      GrownFacts(g);
      AdvanceBody(g);
      PropagateNonNegative(GrownUnstepped(g));
    }
  }

  /** The body loop run on a chained snake only moves segments onto cells
      the snake already holds, so it introduces no negative coordinate. */
  lemma PropagateNonNegative(u: seq<Segment>)
    requires |u| >= 1 && Chained(u)
    requires forall i :: 0 <= i < |u| ==> NonNegative(u[i].pos)
    ensures var p := MoveBody(u[1..], u[0].dir, MoveSquare(u[0]).pos);
            forall j :: 0 <= j < |p.body| ==> NonNegative(p.body[j].pos)
  {
    PropagateChained(u);
    var p := MoveBody(u[1..], u[0].dir, MoveSquare(u[0]).pos);
    forall j | 0 <= j < |p.body|
      ensures NonNegative(p.body[j].pos)
    {
      assert p.body[j] == u[j] || p.body[j] == u[j + 1];
    }
  }

  /** With the apple placed last, a free apple stays free: a running tick
      that eats nothing only moves segments onto cells the snake already
      held or onto the head's new cell, which is not the apple's; one that
      eats places the new apple against the snake it leaves. */
  lemma AppleLastKeepsAppleFree(g: Game, draws: seq<Pos>)
    requires Inv(g) && AppleFree(g) && CanPlaceAppleLast(g, draws)
    requires TickAppleLast(g, draws).outcome.Running()
    ensures AppleFree(TickAppleLast(g, draws).game)
  {
    var r := TickAppleLast(g, draws);
    if !EatsApple(g) {
      assert CanPlaceApple(g, draws);
      GrownFacts(g);
      TickShift(g, draws);
      var u := GrownUnstepped(g);
      var s := r.game.snake;
      assert s == Tick(g, draws).game.snake;
      forall i | 0 <= i < |s|
        ensures s[i].pos != g.apple
      {
        if i >= 1 {
          assert s[i] == u[i - 1];
          assert s[i] == g.snake[i - 1];
        }
      }
    }
  }
}
