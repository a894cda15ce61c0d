/** Board geometry of the snake game: the four headings, their opposites,
    and the one-cell step a board cell takes along a heading.

    Coordinates are unbounded integers. The playable range of a board of
    size W x H is [1, W] x [1, H]; the values 0 and W + 1 (resp. H + 1) are
    sentinels that mark a cell just outside the board. The y axis grows
    downward, so Up decreases y. */
module Geometry {

  datatype Direction = Up | Down | Left | Right

  datatype Pos = Pos(x: int, y: int)

  /** An optional value. */
  datatype Option<T> = None | Some(value: T)

  function Abs(n: int): nat {
    if n < 0 then -n else n
  }

  predicate IsVertical(d: Direction) {
    d == Up || d == Down
  }

  /** The heading pointing the other way along the same axis. */
  function Opposite(d: Direction): (r: Direction)
    ensures r != d
    ensures IsVertical(r) == IsVertical(d)
  {
    match d
    case Up => Down
    case Down => Up
    case Left => Right
    case Right => Left
  }

  lemma OppositeInvolution(d: Direction)
    ensures Opposite(Opposite(d)) == d
    ensures Opposite(d) != d
  {
  }

  /** The neighbouring cell of `p` along `d`. No clamping: stepping off the
      board yields a sentinel cell, which the boundary test detects later. */
  function MoveDirection(p: Pos, d: Direction): (q: Pos)
    ensures Abs(q.x - p.x) + Abs(q.y - p.y) == 1
    ensures q.x == p.x <==> IsVertical(d)
    ensures q.y < p.y <==> d == Up
    ensures q.y > p.y <==> d == Down
    ensures q.x < p.x <==> d == Left
    ensures q.x > p.x <==> d == Right
  {
    match d
    case Up => Pos(p.x, p.y - 1)
    case Down => Pos(p.x, p.y + 1)
    case Right => Pos(p.x + 1, p.y)
    case Left => Pos(p.x - 1, p.y)
  }

  /** Stepping along a heading and then along its opposite is the identity. */
  lemma MoveThenOppositeReturns(p: Pos, d: Direction)
    ensures MoveDirection(MoveDirection(p, d), Opposite(d)) == p
    ensures MoveDirection(MoveDirection(p, Opposite(d)), d) == p
  {
  }

  /** Two cells that step onto the same cell along the same heading are equal. */
  lemma MoveDirectionInjective(p: Pos, q: Pos, d: Direction)
    requires MoveDirection(p, d) == MoveDirection(q, d)
    ensures p == q
  {
  }
}
