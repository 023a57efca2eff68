# Snake game state, modelled in Dafny

The WPF Snake game keeps its whole game state in the main window. The state is:

- the board size, `w` columns by `h` rows;
- `snakeCoords`, the list of body cells, with the head at index 0;
- `tailIndex`, the next body slot to recycle;
- the current direction `dir` and the pending direction `nextDirection`;
- the score;
- the cell the apple is drawn at.

A timer loop runs one tick after another. Each tick does four things in order:

1. It commits the pending direction.
2. If the head is on the apple, the snake grows and the apple moves.
3. The snake moves one cell.
4. If any cell occurs twice in the body, the game resets.

The snake does not move by shifting every segment. The body slot at `tailIndex` receives the old head, and the pointer runs round the slots `1 .. Count-1`. Growth inserts a copy of the cell at `tailIndex` in front of it. The board wraps round at every edge.

The model has four modules:

- `Grid` (grid.dfy) holds cells, directions, C#'s truncating `%`, and the wrapped one-cell head step.
- `Body` (body.dfy) holds the value of the body list after each in-place update: the move, the insertion on growth, and the tail pointer's advance. It also holds the duplicate test. `Snake` reads the ring from head to tail, and the lemmas prove that the ring moves exactly like a shifted snake.
- `Apple` (apple.dfy) models rejection sampling. The random generator's successive `(Next(w), Next(h))` pairs are passed in as a sequence of draws. The chosen cell is the first draw that is not forbidden.
- `Game` (game.dfy) is the window's state as a class. The constructor stands for `Window_Loaded`. `Tick` is one pass of `GameLoop`. `KeyDown` is `Window_KeyDown`. Between ticks the class keeps the invariant `Settled()`:
  - the tail pointer is in range and is at least 1 once the body has more than the head;
  - every cell is on the board;
  - the score equals the body length;
  - the pending direction is never the reverse of the current one;
  - no cell is doubled.

On a 10 by 5 board with the apple at (7, 2), the head reaches the apple after four ticks, but the apple is eaten only on the fifth, because `CheckForApple` runs before `Move`. `Game.OpeningScenario` proves this.

## Model

| member | source | states |
|---|---|---|
| Grid.Rem | Snake_Game/MainWindow.xaml.cs:133-151 | C#'s `%`: for a non-negative dividend it is the ordinary remainder in `0 .. n-1`; for a negative one it lies in `-(n-1) .. 0` |
| Grid.Advance | Snake_Game/MainWindow.xaml.cs:126-155 | a step from a cell on the board stays on the board; it changes only the coordinate on the direction's axis; it moves that coordinate by one and wraps from the last column or row to 0 and from 0 to the last |
| Grid.AdvanceThenOpposite | Snake_Game/MainWindow.xaml.cs:131-154 | a West step undoes an East step and a North step undoes a South step (and vice versa), also across the wrapped edge |
| Body.Collision | Snake_Game/MainWindow.xaml.cs:74-77 | the grouped-by-value test is true exactly when two distinct indices hold equal cells |
| Body.DuplicateIff | Snake_Game/MainWindow.xaml.cs:76 | some value occurring more than once in the list is the same as two distinct indices holding equal cells, in both directions |
| Body.Grown | Snake_Game/MainWindow.xaml.cs:90 | `Insert(tailIndex, coords[tailIndex])` gives one more element and leaves the head unchanged; elements up to and including the tail pointer keep their index, later ones move up by one; the set of cells is unchanged |
| Body.GrownCells | Snake_Game/MainWindow.xaml.cs:90 | as a multiset, growth adds exactly one more copy of the cell at the tail pointer |
| Body.NextTail | Snake_Game/MainWindow.xaml.cs:59-62 | on a list longer than the head, the advanced pointer lies in `1 .. Count-1`; it is the next slot, and from the last slot it wraps to 1 |
| Body.TailCycles | Snake_Game/MainWindow.xaml.cs:59-62 | after `k` moves the pointer is `1 + (t - 1 + k) mod (Count - 1)`, so it visits the body slots in order and each is recycled once every `Count - 1` moves |
| Body.Stepped | Snake_Game/MainWindow.xaml.cs:52-72 | a move keeps the length and puts the new head in slot 0; the old tail slot receives the old head; every other slot is unchanged |
| Body.SteppedCells | Snake_Game/MainWindow.xaml.cs:54-62 | as a multiset, a move removes the cell at the old tail pointer and adds the new head cell, for every pointer in range (with the head alone it replaces the head) |
| Body.Snake | Snake_Game/MainWindow.xaml.cs:23-26 | the snake read from the ring has the list's length, starts at the head, and ends at the oldest segment, which is the one at the tail pointer |
| Body.Trail | Snake_Game/MainWindow.xaml.cs:57-62 | the segments behind the head are the ring slots from the most recently written one backwards |
| Body.SnakeAfterStep | Snake_Game/MainWindow.xaml.cs:52-72 | one ring move equals shifting the snake: the new head goes in front and the oldest segment drops off |
| Body.SnakeAfterGrowth | Snake_Game/MainWindow.xaml.cs:87-90 | the inserted duplicate becomes the new oldest segment: growth appends a copy of the tail to the snake |
| Body.SnakeMoves | Snake_Game/MainWindow.xaml.cs:45 | a tick without eating puts the new head in front of the snake and drops its last segment, for any length |
| Body.SnakeEatsAndMoves | Snake_Game/MainWindow.xaml.cs:44-45 | a tick that eats puts the new head in front and keeps every old segment |
| Apple.FirstAllowed | Snake_Game/MainWindow.xaml.cs:113-124 | sampling succeeds exactly when some draw is not forbidden; the result is a draw, is not forbidden, and every earlier draw was forbidden |
| Apple.GetRandCoord | Snake_Game/MainWindow.xaml.cs:113-124 | the loop returns a cell on the board that is not in the forbidden list, namely the first admissible draw |
| Apple.SpareDrawsAdmit | Snake_Game/MainWindow.xaml.cs:212-218 | two distinct draws off the start cell always leave one admissible after a reset, whatever cell the old apple is on |
| Game.KeyDirection | Snake_Game/MainWindow.xaml.cs:159-166 | exactly the arrow and WASD keys request a direction |
| Game.Game.constructor | Snake_Game/MainWindow.xaml.cs:169-174 | loading the window leaves the reset state with the invariant established, and the apple at the first draw away from its layout position and the start cell |
| Game.Game.Reset | Snake_Game/MainWindow.xaml.cs:194-219 | score 1, body `[(w/3, h/2)]`, tail pointer 0, heading East with East pending; no collision; the new apple differs from the old one and from the start cell |
| Game.Game.MoveApple | Snake_Game/MainWindow.xaml.cs:102-111 | the new apple is on the board, differs from the old apple and is off the snake |
| Game.Game.GrowSnake | Snake_Game/MainWindow.xaml.cs:87-100 | score up by exactly one; the body is the list after the insertion at the tail pointer; the apple moves off the grown snake |
| Game.Game.CheckForApple | Snake_Game/MainWindow.xaml.cs:79-85 | growth happens if and only if the head is on the apple; otherwise score, body and apple are unchanged |
| Game.Game.MoveHead | Snake_Game/MainWindow.xaml.cs:126-155 | only slot 0 changes, and it becomes the head stepped in the current direction |
| Game.Game.Move | Snake_Game/MainWindow.xaml.cs:52-72 | the body becomes the recycled list with the stepped head; the pointer advances round `1 .. Count-1` and stays in range |
| Game.Game.KeyDown | Snake_Game/MainWindow.xaml.cs:157-167 | a direction key sets the pending direction exactly when it is not the reverse of the current direction; otherwise, and for any other key, nothing changes; the invariant is kept |
| Game.Game.Tick | Snake_Game/MainWindow.xaml.cs:37-50 | the between-ticks invariant is kept; with no collision, the state is the committed direction, the grown (if the head was on the apple) and moved body, the advanced pointer, the score and the apple; the snake gains the new head in front and loses its last segment unless it ate; on a collision, the reset state with a new apple that differs from the apple it replaces and is the first admissible reset draw |
| Game.OpeningScenario | Snake_Game/MainWindow.xaml.cs:41-48 | on a 10 by 5 board with the apple at (7, 2), the head reaches (7, 2) after four ticks with the score still 1; the fifth tick eats, giving score 2 and two segments, with the head at (8, 2) |
| Game.EatingTick | Snake_Game/MainWindow.xaml.cs:44-45 | on the 10 by 5 opening, the one-segment snake at (7, 2) heading East on the apple grows to two segments, scores 2 and moves on to (8, 2) |

## Left out

- Rendering is not modelled: the rectangles, brushes, `Grid.SetColumn`/`SetRow`, the `snake` rectangle list and the `RemoveRange` call in `Reset`. `MoveHead` reads the column and row from the head rectangle (Snake_Game/MainWindow.xaml.cs:128-129); the model takes that position to be `snakeCoords[0]`. The apple's drawn position is the `apple` field.
- The timer, `Task.Delay`, `Task.Run`, `await` and `Dispatcher.BeginInvoke` are not modelled. A tick is one sequential method in the loop's order, and key presses happen only between ticks.
- Game.Game.Reset: the apple is moved at the end of `Reset`, because the dispatcher queue is not modelled. In the source, that move is queued on the dispatcher and runs later.
- `SetRowsAndColumns` is not modelled. The source fixes the column count at the constant `size`, which is 40 (Snake_Game/MainWindow.xaml.cs:21, 183). Only the row count comes from the window, as `(int)(size / aspectRatio)` in floating point (Snake_Game/MainWindow.xaml.cs:181-182), and it truncates to 0 for a window more than 40 times wider than tall. The model instead takes any positive width and height as parameters, so it also covers boards the program never builds (the 10 by 5 opening above is one), and it does not cover the 0-row board. Cells are integer pairs rather than WPF's double-valued `Point`.
- `System.Random` is not modelled; its draws are a parameter. Apple.GetRandCoord requires at least one admissible draw. This stands in for the sampling loop ending, which the source does not guarantee: on a board the snake fills, the loop never ends.
- Game.Game.Tick: the draws for the placement after a reset must contain two distinct cells other than the start cell, so that any old apple leaves one of them admissible. Together with every draw being on the board, this means `Tick` cannot be called on a board of fewer than three cells, although the game itself ticks there.
- The `ScoreModel` data binding is not modelled; only the integer score is kept.

Game.Game.Tick requires that the state satisfies the between-ticks invariant. Every state the window reaches satisfies it, because the constructor establishes it and `Tick` and `KeyDown` keep it.
