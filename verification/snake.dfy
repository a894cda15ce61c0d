/** The snake's body: segments, the single-segment step, growth at the
    tail, the steering rule for the head, and the shift-register update that
    carries each segment's heading one step down the body per tick
    (src/main.rs, `SnakeBody`, `Game::grow_snake` and the body loop of
    `Game::move_snake`). A snake is a sequence of segments, head first. */
module Snake {
  import opened Geometry

  /** A body cell together with the heading it will move in next tick. */
  datatype Segment = Segment(pos: Pos, dir: Direction)

  /** The length a fresh snake is topped up to, one segment per tick. */
  const MinSnakeLen: nat := 3

  /** `SnakeBody::move_square`: the segment steps one cell along its own
      heading and keeps that heading. */
  function MoveSquare(s: Segment): (t: Segment)
    ensures t.dir == s.dir
    ensures MoveDirection(t.pos, Opposite(s.dir)) == s.pos
    ensures Abs(t.pos.x - s.pos.x) + Abs(t.pos.y - s.pos.y) == 1
  {
    MoveThenOppositeReturns(s.pos, s.dir);
    Segment(MoveDirection(s.pos, s.dir), s.dir)
  }

  /** `Game::grow_snake`: append a copy of the tail and push it one cell
      backward, against its heading; when the snake had only its head, push
      it twice, so that it does not end up next to the (already moved) head.
      Moving the new segment forward along its heading (once, or twice in
      the two-segment case) lands exactly on the old tail. */
  function Grow(snake: seq<Segment>): (r: seq<Segment>)
    requires |snake| >= 1
    ensures |r| == |snake| + 1
    ensures r[..|snake|] == snake
    ensures r[|snake|].dir == snake[|snake| - 1].dir
    ensures |r| != 2 ==>
              MoveDirection(r[|snake|].pos, r[|snake|].dir) == snake[|snake| - 1].pos
    ensures |r| == 2 ==>
              MoveDirection(MoveDirection(r[1].pos, r[1].dir), r[1].dir) == snake[0].pos
  {
    var tail := snake[|snake| - 1];
    var back := Opposite(tail.dir);
    var once := MoveDirection(tail.pos, back);
    MoveThenOppositeReturns(tail.pos, tail.dir);
    MoveThenOppositeReturns(once, tail.dir);
    var pos := if |snake| + 1 == 2 then MoveDirection(once, back) else once;
    snake + [Segment(pos, tail.dir)]
  }

  /** The steering rule for one already-decoded key: the head takes the
      requested heading unless it is the reverse of its current one. */
  function Steer(snake: seq<Segment>, d: Direction): (r: seq<Segment>)
    requires |snake| >= 1
    ensures |r| == |snake|
    ensures r[1..] == snake[1..]
    ensures r[0].pos == snake[0].pos
    ensures r[0].dir == d <==> d != Opposite(snake[0].dir)
    ensures r[0].dir == d || r[0] == snake[0]
    ensures r[0].dir != Opposite(snake[0].dir)
  {
    if Opposite(snake[0].dir) != d then snake[0 := Segment(snake[0].pos, d)] else snake
  }

  /** Whether a decoded key event would be taken by the steering rule when
      the head currently moves along `cur`; `None` is a key or event that
      decodes to no heading. */
  predicate Accepts(cur: Direction, key: Option<Direction>) {
    key.Some? && key.value != Opposite(cur)
  }

  /** No key strictly before index `i` is taken by the steering rule. */
  predicate NoneAcceptedBefore(cur: Direction, keys: seq<Option<Direction>>, i: nat)
    requires i <= |keys|
  {
    forall j :: 0 <= j < i ==> !Accepts(cur, keys[j])
  }

  /** The key loop of one frame: keys are tried in arrival order; the first
      one the steering rule takes turns the head, and every key after it in
      the same frame is ignored. */
  function SteerByKeys(snake: seq<Segment>, keys: seq<Option<Direction>>): (r: seq<Segment>)
    requires |snake| >= 1
    ensures |r| == |snake|
    ensures r[1..] == snake[1..]
    ensures r[0].pos == snake[0].pos
    ensures r[0].dir != Opposite(snake[0].dir)
    ensures NoneAcceptedBefore(snake[0].dir, keys, |keys|) ==> r == snake
    ensures forall i :: (0 <= i < |keys| && Accepts(snake[0].dir, keys[i]) &&
                         NoneAcceptedBefore(snake[0].dir, keys, i)) ==> r[0].dir == keys[i].value
    decreases |keys|
  {
    if |keys| == 0 then snake
    else if Accepts(snake[0].dir, keys[0]) then Steer(snake, keys[0].value)
    else
      var r := SteerByKeys(snake, keys[1..]);
      assert forall i :: 1 <= i <= |keys| ==>
          NoneAcceptedBefore(snake[0].dir, keys, i) == NoneAcceptedBefore(snake[0].dir, keys[1..], i - 1);
      r
  }

  /** Segment `i` of `body` after one step of the shift register that is fed
      `last` at the front: it has moved along its own heading and now carries
      the heading its predecessor had before the step. */
  function Shifted(body: seq<Segment>, last: Direction, i: nat): Segment
    requires i < |body|
  {
    Segment(MoveSquare(body[i]).pos, if i == 0 then last else body[i - 1].dir)
  }

  /** No segment before index `i` steps onto `head`. */
  predicate NoHitBefore(body: seq<Segment>, head: Pos, i: nat)
    requires i <= |body|
  {
    forall j :: 0 <= j < i ==> MoveSquare(body[j]).pos != head
  }

  datatype Propagation = Propagation(body: seq<Segment>, collided: bool)

  /** The body loop of `Game::move_snake`: front to back, each non-head
      segment moves along its stored heading and swaps that heading with the
      carried one (initially the head's). The loop stops at the first segment
      that lands on the head's cell; the segments behind it are untouched.
      What this computes is stated by `MoveBodySpec`. */
  function MoveBody(body: seq<Segment>, last: Direction, head: Pos): (r: Propagation)
    ensures |r.body| == |body|
    decreases |body|
  {
    if |body| == 0 then Propagation([], false)
    else
      var moved := Segment(MoveSquare(body[0]).pos, last);
      if moved.pos == head then Propagation([moved] + body[1..], true)
      else
        var rest := MoveBody(body[1..], body[0].dir, head);
        Propagation([moved] + rest.body, rest.collided)
  }

  /** Unrolling `NoHitBefore` by one segment. */
  lemma NoHitBeforeTail(body: seq<Segment>, head: Pos)
    requires |body| >= 1 && MoveSquare(body[0]).pos != head
    ensures forall i :: 1 <= i <= |body| ==>
              NoHitBefore(body, head, i) == NoHitBefore(body[1..], head, i - 1)
  {
    forall i | 1 <= i <= |body|
      ensures NoHitBefore(body, head, i) == NoHitBefore(body[1..], head, i - 1)
    {
      if NoHitBefore(body[1..], head, i - 1) {
        forall j | 0 <= j < i
          ensures MoveSquare(body[j]).pos != head
        {
          if j > 0 {
            assert body[j] == body[1..][j - 1];
          }
        }
      }
    }
  }

  /** The body loop reports a collision exactly when some segment steps onto
      the head's cell. */
  lemma {:induction false} MoveBodyCollision(body: seq<Segment>, last: Direction, head: Pos)
    ensures MoveBody(body, last, head).collided <==>
              exists i :: 0 <= i < |body| && MoveSquare(body[i]).pos == head
    decreases |body|
  {
    if |body| > 0 && MoveSquare(body[0]).pos != head {
      MoveBodyCollision(body[1..], body[0].dir, head);
      if MoveBody(body, last, head).collided {
        var k :| 0 <= k < |body| - 1 && MoveSquare(body[1..][k]).pos == head;
        assert MoveSquare(body[k + 1]).pos == head;
      } else {
        forall i | 1 <= i < |body|
          ensures MoveSquare(body[i]).pos != head
        {
          assert body[i] == body[1..][i - 1];
        }
      }
    }
  }

  /** Segment `i` after the body loop: shifted if no segment before it
      stepped onto the head's cell, untouched otherwise. */
  lemma {:induction false} MoveBodyAt(body: seq<Segment>, last: Direction, head: Pos, i: nat)
    requires i < |body|
    ensures NoHitBefore(body, head, i) ==> MoveBody(body, last, head).body[i] == Shifted(body, last, i)
    ensures !NoHitBefore(body, head, i) ==> MoveBody(body, last, head).body[i] == body[i]
    decreases i
  {
    if i > 0 {
      var r := MoveBody(body, last, head);
      if MoveSquare(body[0]).pos == head {
        assert !NoHitBefore(body, head, i);
        assert r.body[i] == body[i];
      } else {
        var rest := MoveBody(body[1..], body[0].dir, head);
        MoveBodyAt(body[1..], body[0].dir, head, i - 1);
        NoHitBeforeTail(body, head);
        assert r.body[i] == rest.body[i - 1];
        assert body[1..][i - 1] == body[i];
        assert Shifted(body, last, i) == Shifted(body[1..], body[0].dir, i - 1);
      }
    }
  }

  /** Every segment up to and including the first one that steps onto the
      head's cell is shifted; every segment behind it keeps its cell and
      heading. */
  lemma MoveBodyCells(body: seq<Segment>, last: Direction, head: Pos)
    ensures var r := MoveBody(body, last, head);
            && (forall i :: 0 <= i < |body| && NoHitBefore(body, head, i) ==>
                  r.body[i] == Shifted(body, last, i))
            && (forall i :: 0 <= i < |body| && !NoHitBefore(body, head, i) ==>
                  r.body[i] == body[i])
  {
    forall i | 0 <= i < |body|
      ensures NoHitBefore(body, head, i) ==> MoveBody(body, last, head).body[i] == Shifted(body, last, i)
      ensures !NoHitBefore(body, head, i) ==> MoveBody(body, last, head).body[i] == body[i]
    {
      MoveBodyAt(body, last, head, i);
    }
  }

  /** The body loop reports a collision exactly when some segment steps onto
      the head's cell; every segment up to and including the first such one
      is shifted, and every segment behind it keeps its cell and heading. */
  lemma MoveBodySpec(body: seq<Segment>, last: Direction, head: Pos)
    ensures var r := MoveBody(body, last, head);
            && (r.collided <==> exists i :: 0 <= i < |body| && MoveSquare(body[i]).pos == head)
            && (forall i :: 0 <= i < |body| && NoHitBefore(body, head, i) ==>
                  r.body[i] == Shifted(body, last, i))
            && (forall i :: 0 <= i < |body| && !NoHitBefore(body, head, i) ==>
                  r.body[i] == body[i])
  {
    MoveBodyCollision(body, last, head);
    MoveBodyCells(body, last, head);
  }

  /** Without a collision every segment is shifted: it steps along its own
      heading and takes over the heading of the segment in front of it. */
  lemma MoveBodyUncollided(body: seq<Segment>, last: Direction, head: Pos)
    requires !MoveBody(body, last, head).collided
    ensures forall i :: 0 <= i < |body| ==> MoveBody(body, last, head).body[i] == Shifted(body, last, i)
  {
    MoveBodyCollision(body, last, head);
    forall i | 0 <= i < |body|
      ensures MoveBody(body, last, head).body[i] == Shifted(body, last, i)
    {
      MoveBodyAt(body, last, head, i);
    }
  }

  /** `p` with the already-processed segments `done` put in front. */
  function Splice(done: seq<Segment>, p: Propagation): Propagation {
    Propagation(done + p.body, p.collided)
  }

  /** One turn of the body loop, as an equation on `MoveBody`. */
  lemma MoveBodyStep(body: seq<Segment>, last: Direction, head: Pos)
    requires |body| >= 1
    ensures var moved := Segment(MoveSquare(body[0]).pos, last);
            MoveBody(body, last, head)
            == if moved.pos == head then Propagation([moved] + body[1..], true)
               else Splice([moved], MoveBody(body[1..], body[0].dir, head))
  {
  }

  /** One turn of the body loop on an in-place copy `s` of the snake whose
      first `i` segments are done: it either stops on a collision with the
      whole propagation accounted for, or leaves one more segment done. */
  lemma BodyLoopTurn(snake: seq<Segment>, s: seq<Segment>, i: nat, last: Direction, head: Pos)
    requires 1 <= i < |s| == |snake|
    requires s[0] == snake[0]
    requires s[i..] == snake[i..]
    ensures var body := Segment(MoveSquare(snake[i]).pos, last);
            var s' := s[i := body];
            var before := Splice(s[1..i], MoveBody(snake[i..], last, head));
            && |s'| == |snake| && s'[0] == snake[0]
            && s'[i + 1..] == snake[i + 1..]
            && (body.pos == head ==> before == Propagation(s'[1..], true) && s' == [snake[0]] + s'[1..])
            && (body.pos != head ==>
                  before == Splice(s'[1..i + 1], MoveBody(snake[i + 1..], snake[i].dir, head)))
  {
    var body := Segment(MoveSquare(snake[i]).pos, last);
    var suffix := snake[i..];
    assert suffix[0] == snake[i] && suffix[1..] == snake[i + 1..];
    MoveBodyStep(suffix, last, head);
    var done := s[1..i];
    var s' := s[i := body];
    assert s'[i + 1..] == snake[i + 1..];
    if body.pos == head {
      assert s'[1..] == done + ([body] + snake[i + 1..]);
      assert s' == [snake[0]] + s'[1..];
    } else {
      var after := MoveBody(snake[i + 1..], snake[i].dir, head);
      assert done + ([body] + after.body) == (done + [body]) + after.body;
      assert s'[1..i + 1] == done + [body];
    }
  }

  /** When the loop runs off the end of the snake, nothing is left to move
      and no collision was seen. */
  lemma BodyLoopDone(snake: seq<Segment>, s: seq<Segment>, last: Direction, head: Pos)
    requires 1 <= |s| == |snake| && s[0] == snake[0]
    ensures Splice(s[1..|s|], MoveBody(snake[|s|..], last, head)) == Propagation(s[1..], false)
    ensures s == [snake[0]] + s[1..]
  {
    assert snake[|s|..] == [];
    assert s[1..|s|] + [] == s[1..];
  }

  /** The same loop, written as the source writes it: one carried heading,
      updated in place segment by segment, with an early exit on collision.
      It computes exactly the functional `MoveBody` of the non-head part. */
  method MoveBodyLoop(snake: seq<Segment>) returns (s: seq<Segment>, running: bool)
    requires |snake| >= 1
    ensures var p := MoveBody(snake[1..], snake[0].dir, snake[0].pos);
            s == [snake[0]] + p.body && running == !p.collided
  {
    var last := snake[0].dir;
    var headPos := snake[0].pos;
    ghost var whole := MoveBody(snake[1..], snake[0].dir, headPos);
    s := snake;
    var i := 1;
    while i < |s|
      invariant 1 <= i <= |s| == |snake|
      invariant s[0] == snake[0]
      invariant s[i..] == snake[i..]
      invariant whole == Splice(s[1..i], MoveBody(snake[i..], last, headPos))
    {
      BodyLoopTurn(snake, s, i, last, headPos);
      var body := s[i];
      s := s[i := Segment(MoveSquare(body).pos, last)];
      last := body.dir;
      if headPos == s[i].pos {
        return s, false;
      }
      i := i + 1;
    }
    BodyLoopDone(snake, s, last, headPos);
    running := true;
  }
}
