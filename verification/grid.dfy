/** Grid geometry of the snake board: cells, the four directions, and the
    toroidal one-cell step that MoveHead performs on the head. */
module Grid {

  /** An optional value: a key's direction, or the draw sampling settles on. */
  datatype Option<T> = None | Some(value: T)

  /** A board cell: column `x` and row `y` (the window's integer Point). */
  datatype Cell = Cell(x: int, y: int)

  datatype Direction = North | East | South | West

  /** The direction that would send the snake straight back. */
  function Opposite(d: Direction): (r: Direction)
    ensures r != d
    ensures (d == North || d == South) <==> (r == North || r == South)
  {
    match d
    case North => South
    case South => North
    case East => West
    case West => East
  }

  /** The cell lies on a board of `w` columns and `h` rows. */
  predicate InGrid(c: Cell, w: int, h: int)
  {
    0 <= c.x < w && 0 <= c.y < h
  }

  /** C#'s integer `%`: the quotient is truncated toward zero, so the
      remainder takes the sign of the dividend (unlike Dafny's `%`). */
  function Rem(a: int, n: int): (r: int)
    requires n > 0
    ensures 0 <= a ==> 0 <= r < n && r == a % n
    ensures a < 0 ==> -n < r <= 0
  {
    if a >= 0 then a % n else -((-a) % n)
  }

  /** A value below three times the modulus reduces by subtracting it at most twice. */
  lemma WrapSmall(a: int, n: int)
    requires n > 0
    ensures 0 <= a < 3 * n ==> a % n == (if a < n then a else if a < 2 * n then a - n else a - 2 * n)
  {
    if 0 <= a < n {
      assert a == 0 * n + a;
    } else if n <= a < 2 * n {
      assert a == 1 * n + (a - n);
    } else if 2 * n <= a < 3 * n {
      assert a == 2 * n + (a - 2 * n);
    }
  }

  /** One step of the head in direction `d` on a `w` by `h` torus, with the
      arithmetic MoveHead uses: West and North add the dimension before
      taking the remainder, East does not, South adds it needlessly. */
  function Advance(c: Cell, d: Direction, w: int, h: int): (r: Cell)
    requires w > 0 && h > 0
    ensures InGrid(c, w, h) ==> InGrid(r, w, h)
    ensures d == East || d == West ==> r.y == c.y
    ensures d == North || d == South ==> r.x == c.x
    ensures InGrid(c, w, h) && d == East ==> r.x == (if c.x == w - 1 then 0 else c.x + 1)
    ensures InGrid(c, w, h) && d == West ==> r.x == (if c.x == 0 then w - 1 else c.x - 1)
    ensures InGrid(c, w, h) && d == South ==> r.y == (if c.y == h - 1 then 0 else c.y + 1)
    ensures InGrid(c, w, h) && d == North ==> r.y == (if c.y == 0 then h - 1 else c.y - 1)
  {
    WrapSmall(c.x + 1, w); WrapSmall(c.x - 1 + w, w);
    WrapSmall(c.y + 1 + h, h); WrapSmall(c.y - 1 + h, h);
    match d
    case West => Cell(Rem(c.x - 1 + w, w), c.y)
    case East => Cell(Rem(c.x + 1, w), c.y)
    case North => Cell(c.x, Rem(c.y - 1 + h, h))
    case South => Cell(c.x, Rem(c.y + 1 + h, h))
  }

  /** A step followed by a step the opposite way returns to the start cell:
      West undoes East and North undoes South, also across the wrapped edge. */
  lemma AdvanceThenOpposite(c: Cell, d: Direction, w: int, h: int)
    requires w > 0 && h > 0 && InGrid(c, w, h)
    ensures Advance(Advance(c, d, w, h), Opposite(d), w, h) == c
  {
    var r := Advance(c, d, w, h);
    assert InGrid(r, w, h);
  }
}
