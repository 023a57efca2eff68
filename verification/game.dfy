/** The game state held by the main window, without its rendering: the
    board size, the body list with its tail pointer, the current and pending
    directions, the score and the apple cell, and the operations the timer
    loop and the keyboard handler perform on them. */
module Game {
  import opened Grid
  import opened Body
  import opened Apple

  /** The keys the window reacts to; every other key is `Other`. */
  datatype Key = A | Left | D | Right | W | Up | S | Down | Other

  /** The direction a key asks for (arrow keys and WASD). */
  function KeyDirection(k: Key): (r: Option<Direction>)
    ensures r.None? <==> k == Other
  {
    match k
    case A | Left => Some(West)
    case D | Right => Some(East)
    case W | Up => Some(North)
    case S | Down => Some(South)
    case Other => None
  }

  class Game {
    const width: int
    const height: int

    var dir: Direction
    var nextDirection: Direction
    var tailIndex: int
    /** snakeCoords: index 0 is the head. */
    var body: seq<Cell>
    var score: int
    /** The cell the apple is drawn at. */
    var apple: Cell

    /** Invariant at every point where the window's code may run. */
    ghost predicate Valid()
      reads this
    {
      width > 0 && height > 0 &&
      |body| >= 1 && 0 <= tailIndex < |body| &&
      (forall i :: 0 <= i < |body| ==> InGrid(body[i], width, height)) &&
      InGrid(apple, width, height) &&
      score == |body| &&
      nextDirection != Opposite(dir)
    }

    /** Invariant between two ticks: on top of Valid(), the tail pointer
        avoids the head slot once there is a body, and no cell is doubled. */
    ghost predicate Settled()
      reads this
    {
      Valid() && (|body| > 1 ==> 1 <= tailIndex) && !Collision(body)
    }

    /** The cell a reset puts the head on: a third across, halfway down. */
    function Start(): (r: Cell)
    {
      Cell(width / 3, height / 2)
    }

    /** The window being loaded: the board gets its size and is reset. The
        apple starts wherever the layout put it (`apple0`). */
    constructor (w: int, h: int, apple0: Cell, draws: seq<Cell>)
      requires w > 0 && h > 0
      requires AllInGrid(draws, w, h)
      requires Admits(draws, [apple0, Cell(w / 3, h / 2)])
      ensures width == w && height == h
      ensures Settled()
      ensures body == [Start()] && score == 1 && tailIndex == 0
      ensures dir == East && nextDirection == East
      ensures apple == FirstAllowed(draws, [apple0, Start()]).value
    {
      width, height := w, h;
      dir, nextDirection := East, East;
      tailIndex, body, score := 0, [], 0;
      apple := apple0;
      new;
      Reset(draws);
    }

    /** Reset: score 1, one segment at the start cell, heading East, and a
        new apple away from the old apple and the start cell. */
    method Reset(draws: seq<Cell>)
      requires width > 0 && height > 0
      requires AllInGrid(draws, width, height)
      requires Admits(draws, [apple, Start()])
      modifies this
      ensures Settled()
      ensures body == [Start()] && score == 1 && tailIndex == 0
      ensures dir == East && nextDirection == East
      ensures apple == FirstAllowed(draws, [old(apple), Start()]).value
      ensures apple != old(apple) && apple != Start()
    {
      score := 1;
      tailIndex := 0;
      dir := East;
      nextDirection := East;
      body := [Start()];
      MoveApple(draws);
    }

    /** MoveApple: sample a cell that is neither the current apple nor any
        body cell, and put the apple there. */
    method MoveApple(draws: seq<Cell>)
      requires AllInGrid(draws, width, height)
      requires Admits(draws, [apple] + body)
      modifies this`apple
      ensures apple == FirstAllowed(draws, [old(apple)] + body).value
      ensures InGrid(apple, width, height)
      ensures apple != old(apple) && apple !in body
    {
      var forbidden := [apple] + body;
      apple := GetRandCoord(forbidden, draws, width, height);
    }

    /** GrowSnake: one more point, the segment at the tail pointer doubled in
        place, and the apple moved. */
    method GrowSnake(draws: seq<Cell>)
      requires Valid()
      requires AllInGrid(draws, width, height)
      requires Admits(draws, [apple] + body)
      modifies this`score, this`body, this`apple
      ensures Valid()
      ensures score == old(score) + 1
      ensures body == Grown(old(body), tailIndex)
      ensures apple == FirstAllowed(draws, [old(apple)] + body).value
      ensures apple != old(apple) && apple !in body
    {
      ghost var before := [apple] + body;
      score := score + 1;
      body := body[..tailIndex] + [body[tailIndex]] + body[tailIndex..];
      assert body == Grown(old(body), tailIndex);
      ghost var i :| 0 <= i < |draws| && draws[i] !in before;
      assert draws[i] !in [apple] + body;
      MoveApple(draws);
    }

    /** CheckForApple: grow when the head is on the apple. */
    method CheckForApple(draws: seq<Cell>)
      requires Valid()
      requires AllInGrid(draws, width, height)
      requires body[0] == apple ==> Admits(draws, [apple] + body)
      modifies this`score, this`body, this`apple
      ensures Valid()
      ensures old(body[0] == apple) ==>
                score == old(score) + 1 && body == Grown(old(body), tailIndex)
                && apple == FirstAllowed(draws, [old(apple)] + body).value
      ensures old(body[0] != apple) ==>
                score == old(score) && body == old(body) && apple == old(apple)
    {
      if body[0] == apple {
        GrowSnake(draws);
      }
    }

    /** MoveHead: the head slot takes one step in the current direction. The
        head's drawn position is taken to be `body[0]`. */
    method MoveHead()
      requires Valid()
      modifies this`body
      ensures Valid()
      ensures body == old(body)[0 := Advance(old(body[0]), dir, width, height)]
    {
      body := body[0 := Advance(body[0], dir, width, height)];
    }

    /** Move: recycle the slot at the tail pointer for the old head, advance
        the pointer round the slots 1 .. |body|-1, then move the head. */
    method Move()
      requires Valid()
      modifies this`body, this`tailIndex
      ensures Valid()
      ensures body == Stepped(old(body), old(tailIndex), Advance(old(body[0]), dir, width, height))
      ensures tailIndex == if |body| > 1 then NextTail(old(tailIndex), |body|) else old(tailIndex)
      ensures |body| > 1 ==> 1 <= tailIndex
    {
      if |body| > 1 {
        var headPos := body[0];
        body := body[tailIndex := headPos];
        if tailIndex < |body| - 1 {
          tailIndex := tailIndex + 1;
        } else {
          tailIndex := 1;
        }
      }
      MoveHead();
    }

    /** Window_KeyDown: a direction key sets the pending direction unless it
        points straight back against the current one (the pending one does
        not matter); any other key does nothing. */
    method KeyDown(key: Key)
      modifies this`nextDirection
      ensures old(Settled()) ==> Settled()
      ensures var d := KeyDirection(key);
              nextDirection == if d.Some? && d.value != Opposite(dir) then d.value else old(nextDirection)
    {
      if (key == A || key == Left) && dir != East {
        nextDirection := West;
      } else if (key == D || key == Right) && dir != West {
        nextDirection := East;
      } else if (key == W || key == Up) && dir != South {
        nextDirection := North;
      } else if (key == S || key == Down) && dir != North {
        nextDirection := South;
      }
    }

    /** The state Reset leaves behind, apart from the apple. */
    ghost predicate IsReset()
      reads this
    {
      body == [Start()] && score == 1 && tailIndex == 0 && dir == East && nextDirection == East
    }

    /** One pass of the game loop: commit the pending direction, eat and
        grow if the head is on the apple, move, and reset on a collision.
        `appleDraws` feed the placement after eating, `resetDraws` the one
        after a reset. Besides the exact new state, the snake read from head
        to tail is the old one with the new head in front, losing its last
        segment unless it ate. */
    method Tick(appleDraws: seq<Cell>, resetDraws: seq<Cell>)
      requires Settled()
      requires AllInGrid(appleDraws, width, height) && AllInGrid(resetDraws, width, height)
      requires body[0] == apple ==> Admits(appleDraws, [apple] + body)
      requires SpareDraws(resetDraws, Start())
      modifies this
      ensures Settled()
      ensures old(body[0] == apple) ==>
                var grown := Grown(old(body), old(tailIndex));
                var nh := Advance(old(body[0]), old(nextDirection), width, height);
                var moved := Stepped(grown, old(tailIndex), nh);
                var eaten := FirstAllowed(appleDraws, [old(apple)] + grown).value;
                if Collision(moved) then
                  IsReset() && apple != eaten && apple != Start()
                  && apple == FirstAllowed(resetDraws, [eaten, Start()]).value
                else
                  dir == old(nextDirection) && nextDirection == old(nextDirection)
                  && body == moved && score == old(score) + 1
                  && tailIndex == NextTail(old(tailIndex), |moved|)
                  && apple == eaten
                  && Snake(body, tailIndex) == [nh] + Snake(old(body), old(tailIndex))
      ensures old(body[0] != apple) ==>
                var nh := Advance(old(body[0]), old(nextDirection), width, height);
                var moved := Stepped(old(body), old(tailIndex), nh);
                if Collision(moved) then
                  IsReset() && apple != old(apple) && apple != Start()
                  && apple == FirstAllowed(resetDraws, [old(apple), Start()]).value
                else
                  dir == old(nextDirection) && nextDirection == old(nextDirection)
                  && body == moved && score == old(score) && apple == old(apple)
                  && tailIndex == (if |moved| > 1 then NextTail(old(tailIndex), |moved|) else old(tailIndex))
                  && Snake(body, tailIndex) == [nh] + Snake(old(body), old(tailIndex))[..|old(body)| - 1]
    {
      ghost var b0, t0, s0, a0 := body, tailIndex, score, apple;
      ghost var ate := body[0] == apple;
      ghost var nh := Advance(body[0], nextDirection, width, height);
      dir := nextDirection;
      CheckForApple(appleDraws);
      Move();
      if ate {
        assert body == Stepped(Grown(b0, t0), t0, nh);
      } else {
        assert body == Stepped(b0, t0, nh);
      }
      if Collision(body) {
        SpareDrawsAdmit(resetDraws, Start(), apple);
        Reset(resetDraws);
      } else if ate {
        SnakeEatsAndMoves(b0, t0, nh);
      } else {
        SnakeMoves(b0, t0, nh);
      }
    }
  }

  /** The opening of a game on a 10 by 5 board with the apple placed at
      (7, 2), no key pressed: the head starts at (3, 2) and reaches the apple
      after four ticks, but the apple is only eaten on the fifth, because the
      check looks at the head before it moves. */
  method OpeningScenario() returns (head4: Cell, score4: int, head5: Cell, score5: int, length5: int)
    ensures head4 == Cell(7, 2) && score4 == 1
    ensures head5 == Cell(8, 2) && score5 == 2 && length5 == 2
  {
    var draws := [Cell(7, 2)];
    assert draws[0] !in [Cell(0, 0), Cell(10 / 3, 5 / 2)];
    var g := new Game(10, 5, Cell(0, 0), draws);
    assert g.apple == Cell(7, 2);
    var spare := [Cell(0, 0), Cell(0, 1)];
    assert SpareDraws(spare, g.Start()) by {
      assert spare[0] != spare[1];
    }
    var x := 3;
    while x < 7
      invariant 3 <= x <= 7
      invariant g.Settled() && g.width == 10 && g.height == 5
      invariant g.body == [Cell(x, 2)] && g.tailIndex == 0 && g.score == 1
      invariant g.dir == East && g.nextDirection == East && g.apple == Cell(7, 2)
      modifies g
    {
      assert Advance(Cell(x, 2), East, 10, 5) == Cell(x + 1, 2);
      assert Stepped([Cell(x, 2)], 0, Cell(x + 1, 2)) == [Cell(x + 1, 2)];
      g.Tick([], spare);
      x := x + 1;
    }
    head4, score4 := g.body[0], g.score;
    head5, score5, length5 := EatingTick(g);
  }

  /** The fifth tick of the opening: the head sits on the apple, so the snake
      grows to two segments, scores 2 and moves on to (8, 2). */
  method EatingTick(g: Game) returns (head: Cell, score: int, length: int)
    requires g.Settled() && g.width == 10 && g.height == 5
    requires g.body == [Cell(7, 2)] && g.tailIndex == 0 && g.score == 1
    requires g.dir == East && g.nextDirection == East && g.apple == Cell(7, 2)
    modifies g
    ensures head == Cell(8, 2) && score == 2 && length == 2
  {
    var spare := [Cell(0, 0), Cell(0, 1)];
    assert SpareDraws(spare, g.Start()) by {
      assert spare[0] != spare[1];
    }
    assert [Cell(0, 0)][0] !in [g.apple] + g.body;
    g.Tick([Cell(0, 0)], spare);
    head, score, length := g.body[0], g.score, |g.body|;
  }
}
