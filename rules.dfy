/** What one tick of the game does to the board, as a function on snapshots,
    and the invariants a tick keeps. */
module Rules {
  import opened Grid

  /** The game's mutable state: the body head first, the heading, the food,
      the score and whether the game has ended. */
  datatype Snapshot = Snapshot(snake: seq<Cell>, direction: Direction, food: Cell, score: nat, over: bool)

  /** The board invariant: a non-empty body of distinct, in-grid, consecutively
      adjacent cells, and food on a free in-grid cell. */
  predicate WellFormed(g: Snapshot, w: int, h: int) {
    0 < w && 0 < h && g.snake != [] &&
    AllInGrid(g.snake, w, h) && Distinct(g.snake) && Connected(g.snake) &&
    InGrid(g.food, w, h) && g.food !in g.snake
  }

  /** The cell the head moves to on the next tick. */
  function Candidate(g: Snapshot): Cell
    requires g.snake != []
  {
    NextHead(g.snake[0], g.direction)
  }

  /** The next tick hits a wall or a current body cell, the tail included. */
  function Collides(g: Snapshot, w: int, h: int): (b: bool)
    requires g.snake != []
    ensures b <==> Candidate(g) !in FreeCells(w, h, g.snake)
    ensures Candidate(g) == g.snake[|g.snake| - 1] ==> b
  {
    Candidate(g) in g.snake || !InGrid(Candidate(g), w, h)
  }

  /** The next tick moves the head onto the food. */
  predicate Eats(g: Snapshot, w: int, h: int)
    requires g.snake != []
  {
    !g.over && !Collides(g, w, h) && Candidate(g) == g.food
  }

  /** One tick. `placed` is where food is put again if this tick eats;
      otherwise it is not used. */
  function Tick(g: Snapshot, w: int, h: int, placed: Cell): (r: Snapshot)
    requires g.over || g.snake != []
    ensures r.direction == g.direction
    ensures r.over <==> g.over || Collides(g, w, h)
  {
    if g.over then g
    else if Collides(g, w, h) then g.(over := true)
    else if Candidate(g) == g.food then
      g.(snake := [Candidate(g)] + g.snake, score := g.score + 1, food := placed)
    else
      g.(snake := [Candidate(g)] + g.snake[..|g.snake| - 1])
  }

  /** Once the game is over a tick changes nothing. */
  lemma TickWhenOver(g: Snapshot, w: int, h: int, placed: Cell)
    requires g.over
    ensures Tick(g, w, h, placed) == g
  {
  }

  /** A colliding tick only ends the game. */
  lemma TickOnCollision(g: Snapshot, w: int, h: int, placed: Cell)
    requires !g.over && g.snake != [] && Collides(g, w, h)
    ensures var r := Tick(g, w, h, placed);
      r.over && r.snake == g.snake && r.food == g.food && r.score == g.score &&
      r.direction == g.direction
  {
  }

  /** A non-colliding tick puts the moved head in front of the old body and
      either grows and scores (food eaten) or drops the last cell. */
  lemma TickOnMove(g: Snapshot, w: int, h: int, placed: Cell)
    requires !g.over && g.snake != [] && !Collides(g, w, h)
    ensures var r := Tick(g, w, h, placed);
      !r.over && r.direction == g.direction &&
      r.snake[0] == NextHead(g.snake[0], g.direction) &&
      InGrid(r.snake[0], w, h) && r.snake[0] !in g.snake &&
      (Eats(g, w, h) ==>
         r.snake[1..] == g.snake && |r.snake| == |g.snake| + 1 &&
         r.score == g.score + 1 && r.food == placed) &&
      (!Eats(g, w, h) ==>
         r.snake[1..] == g.snake[..|g.snake| - 1] && |r.snake| == |g.snake| &&
         r.score == g.score && r.food == g.food)
  {
  }

  /** Score and length never decrease, and they grow together. */
  lemma TickMonotone(g: Snapshot, w: int, h: int, placed: Cell)
    requires g.over || g.snake != []
    ensures var r := Tick(g, w, h, placed);
      r.score >= g.score && |r.snake| >= |g.snake| &&
      |r.snake| - r.score == |g.snake| - g.score
  {
  }

  /** Where the food may go when a tick eats: any in-grid cell off the grown body. */
  predicate FoodFits(g: Snapshot, w: int, h: int, placed: Cell)
    requires g.snake != []
  {
    Eats(g, w, h) ==> InGrid(placed, w, h) && placed !in [Candidate(g)] + g.snake
  }

  /** A tick keeps the board invariant. */
  lemma TickPreservesWellFormed(g: Snapshot, w: int, h: int, placed: Cell)
    requires WellFormed(g, w, h) && FoodFits(g, w, h, placed)
    ensures WellFormed(Tick(g, w, h, placed), w, h)
  {
  }

  /** When the grown body is still smaller than the board, there is a free
      cell for the food an eating tick places. */
  lemma RoomAfterEating(g: Snapshot, w: int, h: int)
    requires WellFormed(g, w, h) && Eats(g, w, h) && |g.snake| + 1 < w * h
    ensures FreeCells(w, h, [Candidate(g)] + g.snake) != {}
  {
    var t := [Candidate(g)] + g.snake;
    forall i | 0 <= i < |t| ensures InGrid(t[i], w, h) {
      if i > 0 { assert t[i] == g.snake[i - 1]; }
    }
    forall i, j | 0 <= i < j < |t| ensures t[i] != t[j] {
      assert t[j] == g.snake[j - 1];
      if i > 0 { assert t[i] == g.snake[i - 1]; }
    }
    FreeCellExists(w, h, t);
  }

  /** What happens between ticks: a key press or a tick. */
  datatype Event = Press(key: string) | Step(placed: Cell)

  function Apply(g: Snapshot, e: Event, w: int, h: int): Snapshot
    requires g.over || g.snake != []
  {
    match e
    case Press(key) => g.(direction := Turn(g.direction, key))
    case Step(placed) => Tick(g, w, h, placed)
  }

  /** Every tick of `es` finds a body to move and places food on a free cell. */
  predicate Admissible(g: Snapshot, es: seq<Event>, w: int, h: int)
    decreases |es|
  {
    es == [] ||
    ((g.over || g.snake != []) &&
     (es[0].Step? && !g.over ==> FoodFits(g, w, h, es[0].placed)) &&
     Admissible(Apply(g, es[0], w, h), es[1..], w, h))
  }

  /** The state after the events `es`, in order. */
  function Run(g: Snapshot, es: seq<Event>, w: int, h: int): (r: Snapshot)
    requires Admissible(g, es, w, h)
    ensures g.over ==> r.over && r.snake == g.snake && r.food == g.food && r.score == g.score
    ensures (forall i :: 0 <= i < |es| ==> es[i].Press?) ==>
              r.snake == g.snake && r.food == g.food && r.score == g.score && r.over == g.over
    decreases |es|
  {
    if es == [] then g else Run(Apply(g, es[0], w, h), es[1..], w, h)
  }

  /** Over any sequence of key presses and ticks the board invariant holds,
      score and length never decrease and grow together, and once the game
      is over the body, food and score are frozen (key presses still turn the
      heading). */
  lemma {:induction false} RunPreserves(g: Snapshot, es: seq<Event>, w: int, h: int)
    requires WellFormed(g, w, h) && Admissible(g, es, w, h)
    ensures var r := Run(g, es, w, h);
      WellFormed(r, w, h) &&
      r.score >= g.score && |r.snake| >= |g.snake| &&
      |r.snake| - r.score == |g.snake| - g.score &&
      (g.over ==> r.over && r.snake == g.snake && r.food == g.food && r.score == g.score)
    decreases |es|
  {
    if es != [] {
      var next := Apply(g, es[0], w, h);
      if es[0].Step? {
        if !g.over {
          TickPreservesWellFormed(g, w, h, es[0].placed);
        }
        TickMonotone(g, w, h, es[0].placed);
      }
      RunPreserves(next, es[1..], w, h);
    }
  }

  /** Directions are checked only against the heading at key-press time, so
      two presses within one tick can reverse the snake. */
  lemma TwoPressesReverse()
    ensures Turn(Turn(Right, "Up"), "Left") == Opposite(Right)
  {
  }

  /** Moving into the cell the tail is about to leave counts as a collision. */
  lemma TailCellCollides()
    ensures var g := Snapshot([Cell(1, 1), Cell(1, 2), Cell(2, 2), Cell(2, 1)], Right, Cell(0, 0), 0, false);
      WellFormed(g, 20, 20) && Collides(g, 20, 20) && Tick(g, 20, 20, Cell(0, 0)).over
  {
  }

  /** A head on the right edge heading right ends the game and leaves the body as it was. */
  lemma WallHit()
    ensures var g := Snapshot([Cell(19, 5), Cell(18, 5), Cell(17, 5)], Right, Cell(10, 10), 2, false);
      var r := Tick(g, 20, 20, Cell(0, 0));
      r.over && r.snake == g.snake && r.score == 2
  {
  }
}
