/** The game object: start-up, key handling, one tick, and food placement,
    each updating the object's fields in place. */
module Game {
  import opened Grid
  import opened Text
  import Rules

  const BoardWidth := 20
  const BoardHeight := 20
  /** The body at the start of every game, head first. */
  const InitialSnake := [Cell(5, 5), Cell(5, 4), Cell(5, 3)]

  /** One row of the score table: who played, the final score and the level. */
  datatype ScoreRecord = ScoreRecord(player: string, score: nat, level: string)

  /** Milliseconds between ticks for a difficulty name; any name other than
      "Easy" and "Medium" plays at the "Hard" pace. */
  function Speed(level: string): (ms: nat)
    ensures ms == 200 <==> level == "Easy"
    ensures ms == 150 <==> level == "Medium"
    ensures ms == 100 <==> level != "Easy" && level != "Medium"
  {
    if level == "Easy" then 200
    else if level == "Medium" then 150
    else 100
  }

  /** The easier level never ticks faster. */
  lemma SpeedOrdered(level: string)
    ensures Speed("Hard") < Speed("Medium") < Speed("Easy")
    ensures Speed(level) in {Speed("Easy"), Speed("Medium"), Speed("Hard")}
  {
  }

  /** The starting body lies on the board, its cells distinct and adjacent,
      and it leaves free cells. */
  lemma InitialSnakeFits()
    ensures AllInGrid(InitialSnake, BoardWidth, BoardHeight)
    ensures Distinct(InitialSnake) && Connected(InitialSnake)
    ensures |InitialSnake| < BoardWidth * BoardHeight
  {
  }

  /** The tick that starting a game runs itself: the head moves right to
      (6,5), which is free, so the game never ends on it; it eats when the
      first food lies there and otherwise drops the tail cell (5,3). */
  lemma FirstTick(first: Cell, placed: Cell)
    requires InGrid(first, BoardWidth, BoardHeight) && first !in InitialSnake
    ensures var r := Rules.Tick(Rules.Snapshot(InitialSnake, Right, first, 0, false), BoardWidth, BoardHeight, placed);
      !r.over && r.direction == Right &&
      (first != Cell(6, 5) ==> r.snake == [Cell(6, 5), Cell(5, 5), Cell(5, 4)] && r.score == 0 && r.food == first) &&
      (first == Cell(6, 5) ==> r.snake == [Cell(6, 5)] + InitialSnake && r.score == 1 && r.food == placed)
  {
  }

  /** The second tick, heading Right, when the first one did not eat and the
      food is not at (7,5): the head moves on to (7,5) and the tail follows. */
  lemma SecondTick(food: Cell, placed: Cell)
    requires InGrid(food, BoardWidth, BoardHeight) && food !in [Cell(6, 5), Cell(5, 5), Cell(5, 4)]
    requires food != Cell(7, 5)
    ensures Rules.Tick(Rules.Snapshot([Cell(6, 5), Cell(5, 5), Cell(5, 4)], Right, food, 0, false), BoardWidth, BoardHeight, placed)
            == Rules.Snapshot([Cell(7, 5), Cell(6, 5), Cell(5, 5)], Right, food, 0, false)
  {
  }

  class SnakeGame {
    var width: int
    var height: int
    var speed: nat
    var playerName: string
    var difficulty: string
    var snake: seq<Cell>
    var direction: Direction
    var food: Cell
    var score: nat
    var gameOver: bool
    /** The rows of the persisted score table, oldest first. */
    var scores: seq<ScoreRecord>

    /** The game state as a value. */
    function State(): Rules.Snapshot
      reads this
    {
      Rules.Snapshot(snake, direction, food, score, gameOver)
    }

    /** The invariant of a started game: the board invariant, and the score is
        the number of cells grown since the start. */
    ghost predicate Valid()
      reads this
    {
      Rules.WellFormed(State(), width, height) && |snake| == score + |InitialSnake|
    }

    /** Opens the score table holding `stored`; no game is running yet. */
    constructor (stored: seq<ScoreRecord>)
      ensures scores == stored
    {
      scores := stored;
    }

    /** Starts a game for the entered name and level, then runs its first tick
        at once, before any key press can arrive. A name that is empty after
        stripping whitespace is refused and nothing changes. `firstFood` is
        where the food was placed before that first tick. */
    method StartGame(nameEntry: string, level: string) returns (started: bool, ghost firstFood: Cell)
      modifies this
      ensures started <==> exists i :: 0 <= i < |nameEntry| && !IsSpace(nameEntry[i])
      ensures !started ==> unchanged(this)
      ensures started ==>
        Valid() && width == BoardWidth && height == BoardHeight &&
        speed == Speed(level) && playerName == Strip(nameEntry) && playerName != [] &&
        difficulty == level && direction == Right && !gameOver && scores == old(scores) &&
        InGrid(firstFood, BoardWidth, BoardHeight) && firstFood !in InitialSnake &&
        State() == Rules.Tick(Rules.Snapshot(InitialSnake, Right, firstFood, 0, false), width, height, food)
      ensures started && firstFood != Cell(6, 5) ==>
        snake == [Cell(6, 5), Cell(5, 5), Cell(5, 4)] && score == 0 && food == firstFood
      ensures started && firstFood == Cell(6, 5) ==>
        snake == [Cell(6, 5)] + InitialSnake && score == 1
    {
      var name := Strip(nameEntry);
      if name == [] {
        return false, Cell(0, 0);
      }
      firstFood := Reset(name, level);
      FirstTick(firstFood, Cell(0, 0));
      var reschedule := Update();
      FirstTick(firstFood, food);
      started := true;
    }

    /** Sets up a fresh game for `name` at `level`: the 20 by 20 board, the
        tick interval, the initial body heading Right, food on a free cell,
        score 0. The score table is kept. */
    method Reset(name: string, level: string) returns (ghost first: Cell)
      modifies this
      ensures Valid() && width == BoardWidth && height == BoardHeight &&
        speed == Speed(level) && playerName == name && difficulty == level &&
        scores == old(scores) &&
        State() == Rules.Snapshot(InitialSnake, Right, first, 0, false) &&
        InGrid(first, BoardWidth, BoardHeight) && first !in InitialSnake
    {
      width, height := BoardWidth, BoardHeight;
      speed := Speed(level);
      playerName := name;
      difficulty := level;
      snake := InitialSnake;
      InitialSnakeFits();
      direction := Right;
      food := CreateFood();
      first := food;
      score := 0;
      gameOver := false;
    }

    /** The game loop's body: one tick, and whether another tick is to be
        scheduled. */
    method Update() returns (reschedule: bool)
      requires Valid()
      requires !gameOver && Rules.Eats(State(), width, height) ==> |snake| + 1 < width * height
      modifies this`snake, this`food, this`score, this`gameOver, this`scores
      ensures Valid()
      ensures Rules.FoodFits(old(State()), width, height, food)
      ensures State() == Rules.Tick(old(State()), width, height, food)
      ensures scores == if !old(gameOver) && gameOver
                        then old(scores) + [ScoreRecord(playerName, score, difficulty)]
                        else old(scores)
      ensures reschedule <==> !gameOver
    {
      MoveSnake();
      reschedule := !gameOver;
    }

    /** Picks a cell for the food: any in-grid cell the snake does not occupy.
        The choice is left open; there must be such a cell. */
    method CreateFood() returns (f: Cell)
      requires 0 < width && 0 < height
      requires AllInGrid(snake, width, height) && Distinct(snake) && |snake| < width * height
      ensures InGrid(f, width, height) && f !in snake
    {
      FreeCellExists(width, height, snake);
      f :| f in FreeCells(width, height, snake);
    }

    /** Handles a key press: an arrow key that does not reverse the heading
        becomes the heading; every other key is ignored. */
    method ChangeDirection(key: string)
      modifies this`direction
      ensures direction == Turn(old(direction), key)
    {
      if key in ["Up", "Down", "Left", "Right"] {
        if (key == "Up" && direction != Down) || (key == "Down" && direction != Up) ||
           (key == "Left" && direction != Right) || (key == "Right" && direction != Left)
        {
          direction := KeyDirection(key).value;
        }
      }
    }

    /** One tick. A tick that would fill the whole board with the grown snake
        never finds a place for the food, so it is excluded. */
    method MoveSnake()
      requires Valid()
      requires !gameOver && Rules.Eats(State(), width, height) ==> |snake| + 1 < width * height
      modifies this`snake, this`food, this`score, this`gameOver, this`scores
      ensures Valid()
      ensures Rules.FoodFits(old(State()), width, height, food)
      ensures State() == Rules.Tick(old(State()), width, height, food)
      ensures scores == if !old(gameOver) && gameOver
                        then old(scores) + [ScoreRecord(playerName, score, difficulty)]
                        else old(scores)
    {
      if gameOver {
        return;
      }
      ghost var before := State();
      var head := snake[0];
      var newHead := NextHead(head, direction);
      assert newHead == Rules.Candidate(before);
      if newHead in snake || newHead.x < 0 || newHead.x >= width || newHead.y < 0 || newHead.y >= height {
        gameOver := true;
        SaveScore();
        assert State() == Rules.Tick(before, width, height, food);
        return;
      }
      assert !Rules.Collides(before, width, height);
      snake := [newHead] + snake;
      if newHead == food {
        score := score + 1;
        Rules.RoomAfterEating(before, width, height);
        food := CreateFood();
      } else {
        snake := snake[..|snake| - 1];
      }
      assert State() == Rules.Tick(before, width, height, food);
      Rules.TickPreservesWellFormed(before, width, height, food);
    }

    /** Appends the finished game to the score table. */
    method SaveScore()
      modifies this`scores
      ensures scores == old(scores) + [ScoreRecord(playerName, score, difficulty)]
    {
      scores := scores + [ScoreRecord(playerName, score, difficulty)];
    }
  }

  /** After the first tick the head is at (6,5) heading Right; "Left" is
      then refused, and the next tick moves the head to (7,5). The second
      tick is followed only when neither tick eats: the first food was not
      at (6,5) and the food is not at (7,5). */
  method LeftRefusedAfterStart()
  {
    var game := new SnakeGame([]);
    var name := "Ada";
    assert !IsSpace(name[0]);
    var started, firstFood := game.StartGame(name, "Medium");
    assert started;
    game.ChangeDirection("Left");
    assert game.direction == Right;
    if game.score == 0 && game.food != Cell(7, 5) {
      SecondTick(game.food, game.food);
      var reschedule := game.Update();
      assert game.snake == [Cell(7, 5), Cell(6, 5), Cell(5, 5)] && game.score == 0 && reschedule;
    }
  }
}
