/** The key switch of the event loop: arrow keys move the player one cell,
    guarded so that the position never leaves the field. */
module Movement {
  import opened Field

  /** The keys the event loop distinguishes; every other key is Other. */
  datatype Key = Up | Down | Left | Right | Esc | Other

  datatype Pos = Pos(x: int, y: int)

  predicate IsArrow(k: Key) {
    k.Up? || k.Down? || k.Left? || k.Right?
  }

  /** The unit step an arrow key asks for (row 0 is the top of the screen). */
  function Delta(k: Key): Pos {
    match k
    case Up => Pos(0, -1)
    case Down => Pos(0, 1)
    case Left => Pos(-1, 0)
    case Right => Pos(1, 0)
    case _ => Pos(0, 0)
  }

  /** The target cell of an arrow key, before any bounds check. */
  function Target(p: Pos, k: Key): Pos {
    Pos(p.x + Delta(k).x, p.y + Delta(k).y)
  }

  /** The player's position after key k, as the event loop's switch computes it. */
  function Move(p: Pos, k: Key): (r: Pos)
    // an in-bounds player stays in bounds
    ensures InBounds(p.x, p.y) ==> InBounds(r.x, r.y)
    // from inside the field: step to the target cell when it is inside the field, otherwise stay
    ensures InBounds(p.x, p.y) ==> r == if InBounds(Target(p, k).x, Target(p, k).y) then Target(p, k) else p
    // only an arrow key moves, and only to the cell in its direction
    ensures r == p || (IsArrow(k) && r == Target(p, k))
    // at most one coordinate changes, by exactly one
    ensures r == p || (r.x == p.x && (r.y - p.y == 1 || p.y - r.y == 1))
                   || (r.y == p.y && (r.x - p.x == 1 || p.x - r.x == 1))
  {
    match k
    case Up => if p.y > 0 then Pos(p.x, p.y - 1) else p
    case Down => if p.y < Height - 1 then Pos(p.x, p.y + 1) else p
    case Left => if p.x > 0 then Pos(p.x - 1, p.y) else p
    case Right => if p.x < Width - 1 then Pos(p.x + 1, p.y) else p
    case _ => p
  }

  /** A move that is refused at the edge leaves the player where it is, and
      pressing the same key again is refused again. */
  lemma RefusedMoveIsStable(p: Pos, k: Key)
    requires InBounds(p.x, p.y) && IsArrow(k)
    requires !InBounds(Target(p, k).x, Target(p, k).y)
    ensures Move(p, k) == p && Move(Move(p, k), k) == p
  {
  }
}
