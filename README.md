# Snake game state machine

A model of the state machine at the heart of a tkinter snake game (`SnakeGame` in `main.py`).
The snake is a list of board cells, head first. It moves one cell per tick in its current
heading. Hitting a wall or any cell of its own body ends the game, and the final score is
written to a score table. Running onto the food grows the snake by one cell, adds one point
and places new food on a random free cell. Arrow keys change the heading, but never to its
exact reverse. A game starts only when the player's name is non-empty after whitespace is
stripped. The chosen difficulty sets the tick interval.

Layout:

- `text.dfy`, module `Text`: Python's `str.strip()` with the full `str.isspace` character set.
- `grid.dfy`, module `Grid`: cells, headings, arrow-key names, the turn rule, the next-head
  step, and the free cells of a board. It also proves that a board with fewer snake cells than
  cells always has a free one.
- `rules.dfy`, module `Rules`: the game state as a value (`Snapshot`) and one tick as a function
  (`Tick`). It holds the board invariant (`WellFormed`), the lemmas that a tick keeps it, and
  runs of key presses and ticks (`Run`).
- `game.dfy`, module `Game`: the class `SnakeGame`, whose fields are updated in place by
  `StartGame`, `Reset`, `Update`, `ChangeDirection`, `MoveSnake`, `CreateFood` and
  `SaveScore`. `MoveSnake` and `Update` are proved equal to `Rules.Tick` and to keep
  `Valid()`. `ChangeDirection` is proved equal to `Grid.Turn`.

The board is a general `width` by `height` grid in `Grid` and `Rules`. `StartGame` fixes it at
20 by 20, as the game does. The food choice is nondeterministic: `CreateFood` picks any member
of the explicit free-cell set, and `Tick` takes the newly placed food as a parameter.

The model keeps these behaviours of the code, which an idealised snake game would not have:

- The heading is written at key-press time; there is no pending direction applied at the
  next tick. Two presses within one tick can therefore reverse the snake
  (`Rules.TwoPressesReverse`).
- The self-collision test runs against the whole current body, the tail included. Moving
  into the cell the tail is about to leave ends the game (`Rules.TailCellCollides`).
- Food placement on a full board has no error result. The game's `create_food` loop never
  ends then, so `MoveSnake` requires room for the food on a tick that eats.
- Starting a game runs its first tick at once (`start_game` ends by calling `update`), before
  any key press can arrive. `StartGame` therefore ends with one `Update`: the head always
  moves right from (5,5) to (6,5), a free cell, so the first tick never ends the game
  (`Game.FirstTick`).

## Model

| member | source | states |
|---|---|---|
| Text.IsSpace | main.py:233 | the characters `strip()` removes: space, tab, newline and carriage return are among them; digits and ASCII letters never are |
| Text.LeadingSpaces | main.py:233 | the count of leading characters removed by `strip()`: all of them are whitespace, and the next character is not |
| Text.TrailingSpaces | main.py:233 | the count of trailing characters removed by `strip()`: all of them are whitespace, and the one before them is not |
| Text.Strip | main.py:233-234 | the stripped name is the infix of the entry that follows its leading whitespace; everything after it is whitespace; it starts and ends with a non-space; it is empty exactly when the entry is all whitespace |
| Text.StripIdempotent | main.py:233 | stripping an already stripped name changes nothing |
| Grid.Opposite | main.py:336-339 | every heading has a reverse different from itself |
| Grid.OppositeInvolutive | main.py:336-339 | the reverse of the reverse is the heading itself |
| Grid.KeyDirection | main.py:333-334 | a key names a heading exactly when it is one of Up, Down, Left, Right, and that heading's name is the key |
| Grid.KeyRoundTrip | main.py:334-340 | reading the name of a heading back as a key gives that heading |
| Grid.Turn | main.py:331-340 | after a key press the heading is never the reverse of the heading before it; a key that is not an arrow key leaves it unchanged; a changed heading is the one the key names |
| Grid.NextHead | main.py:348-356 | the new head is grid-adjacent to the old head |
| Grid.NextHeadReversible | main.py:348-356 | stepping back along the reverse heading returns to the old head, and different headings give different new heads |
| Grid.GridMembers | main.py:295-298 | the board cells are exactly the cells with 0 <= x < width and 0 <= y < height |
| Grid.GridSize | main.py:295-298 | a width by height board has width * height cells |
| Grid.DistinctCellCount | main.py:299 | a body of pairwise distinct cells occupies as many cells as it is long |
| Grid.FreeCellsOnBoard | main.py:294-300 | the cells food may be placed on are the row-by-row board less the cells the snake occupies |
| Grid.FreeCellCount | main.py:294-300 | a body of distinct in-grid cells of length n leaves exactly width * height - n cells where food may be placed, counted against the row-by-row board |
| Grid.FreeCellExists | main.py:294-300 | a body of distinct in-grid cells shorter than the board size leaves a free cell, so the retry loop can return |
| Rules.Collides | main.py:359-361 | a tick collides exactly when its new head is not a cell food could be placed on (an in-grid cell off the current body); a new head on the tail cell always collides |
| Rules.Tick | main.py:342-380 | a tick never changes the heading, and the game is over after it exactly when it was over before or this tick collides |
| Rules.TickWhenOver | main.py:344-345 | a tick on a finished game changes nothing: body, heading, food, score all stay |
| Rules.TickOnCollision | main.py:358-365 | a tick whose new head is off the board or on any current body cell ends the game and leaves body, food, score and heading as they were |
| Rules.TickOnMove | main.py:348-380 | a non-colliding tick puts the moved head in front; on food the old body follows whole, score +1 and new food; otherwise the last cell is dropped and score and food stay |
| Rules.TickMonotone | main.py:359-380 | a tick never lowers score or length, and length minus score stays the same |
| Rules.TickPreservesWellFormed | main.py:359-380 | a tick keeps the body non-empty, in bounds, pairwise distinct and adjacent, and the food in bounds and off the body |
| Rules.RoomAfterEating | main.py:368-376 | when the grown body is smaller than the board, a free cell for the new food exists |
| Rules.Run | main.py:331-380 | after any key presses and ticks a finished game stays finished with body, food and score unchanged; key presses alone never move the snake, change food or score, or end the game |
| Rules.RunPreserves | main.py:331-380 | over any key presses and ticks the invariant holds, score and length never decrease, and a finished game's body, food and score never change |
| Rules.TwoPressesReverse | main.py:336-340 | two key presses within one tick can reverse the heading |
| Rules.TailCellCollides | main.py:359-365 | moving into the cell the tail is about to leave ends the game |
| Rules.WallHit | main.py:359-365 | a head on the right edge heading Right ends the game with body and score unchanged |
| Game.Speed | main.py:239-245 | the tick interval is 200 ms exactly for "Easy", 150 ms exactly for "Medium", 100 ms for every other level |
| Game.SpeedOrdered | main.py:239-245 | Hard ticks faster than Medium, Medium faster than Easy, and every level gets one of those three intervals |
| Game.InitialSnakeFits | main.py:251-259 | the starting body lies on the 20 by 20 board, its cells distinct and adjacent, and leaves free cells |
| Game.SecondTick | main.py:342-380 | from the state after a first tick that did not eat, heading Right with the food neither on the body nor at (7,5), the next tick moves the body to (7,5),(6,5),(5,5) and changes nothing else |
| Game.SnakeGame.constructor | main.py:21-41 | opening the score table keeps the rows already stored |
| Game.FirstTick | main.py:259-263 | the first tick from the initial state moves the head to (6,5) and never ends the game; it drops the tail (5,3) unless the first food is at (6,5), in which case the snake grows and scores 1 |
| Game.SnakeGame.StartGame | main.py:230-290 | a game starts exactly when the entry has a non-space character; otherwise nothing changes; once started: 20 by 20 board, speed by level, stripped name, heading Right, score table kept, invariant established, and the state is one tick on from the initial body with score 0 and the first food; the body is (6,5),(5,5),(5,4) unless that food was at (6,5) |
| Game.SnakeGame.Reset | main.py:250-263 | the fresh game state: 20 by 20 board, speed by level, the given name and level, body (5,5),(5,4),(5,3) heading Right, food on a free in-grid cell, score 0, not over; the score table is kept |
| Game.SnakeGame.Update | main.py:390-395 | one tick as `Rules.Tick`, keeping the invariant; another tick is scheduled exactly when the game is not over |
| Game.SnakeGame.CreateFood | main.py:292-300 | the food is an in-grid cell not on the snake |
| Game.SnakeGame.ChangeDirection | main.py:331-340 | the new heading is `Grid.Turn` of the old heading and the key |
| Game.SnakeGame.MoveSnake | main.py:342-380 | the new state is `Rules.Tick` of the old one; the invariant is kept; new food is off the grown body; the score row is written exactly when this tick ends the game |
| Game.SnakeGame.SaveScore | main.py:382-388 | one row with player name, score and level is appended to the score table |

## Left out

- Rendering: the start page, the high-score and results windows, canvas drawing and the
  score label (main.py:43-228, 302-329, 373-375). These are display only.
- The leaderboard queries (`ORDER BY score DESC LIMIT`). Their tie order is decided by the
  database engine. The `date` column default and its formatting are left out too.
- Database connection details in `init_db`. The table is modelled as a sequence of rows that
  the constructor receives and `SaveScore` appends to.
- The timer and the key binding (main.py:287, 395). `Update` returns whether the next tick
  is to be scheduled; the scheduling itself is left out. The order of key presses and ticks
  is modelled instead by `Rules.Run` over a sequence of events.
- The distribution of `random.randint`. The food is any free cell.
- Game.SnakeGame.MoveSnake: requires room for the new food on a tick that eats. On a board
  the grown snake fills, the game's `create_food` loop never returns, and this model does
  not represent a tick that never ends.
- Game.SnakeGame.CreateFood: requires a body of distinct in-grid cells shorter than the
  board. The game's `create_food` loop never ends when no cell is free.
- The warning dialog for an empty name is modelled only as `StartGame` returning false with
  no state change.
- The heading is stored as a four-valued datatype rather than the key string. The game only
  ever stores one of the four arrow-key names, so no behaviour is lost.
