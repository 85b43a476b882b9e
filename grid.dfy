/** The board: cells, headings, arrow keys, and the cells still free for food. */
module Grid {

  datatype Option<T> = None | Some(value: T)

  /** A board cell: column `x`, row `y` (rows grow downwards). */
  datatype Cell = Cell(x: int, y: int)

  /** The snake's heading; the game only ever stores one of the four arrow-key names. */
  datatype Direction = Up | Down | Left | Right

  function Opposite(d: Direction): (o: Direction)
    ensures o != d
  {
    match d
    case Up => Down
    case Down => Up
    case Left => Right
    case Right => Left
  }

  lemma OppositeInvolutive(d: Direction)
    ensures Opposite(Opposite(d)) == d
  {
  }

  /** The key symbol that names a heading. */
  function KeyName(d: Direction): string {
    match d
    case Up => "Up"
    case Down => "Down"
    case Left => "Left"
    case Right => "Right"
  }

  /** The heading an arrow-key symbol names; every other key names none. */
  function KeyDirection(key: string): (d: Option<Direction>)
    ensures d.Some? <==> key in ["Up", "Down", "Left", "Right"]
    ensures d.Some? ==> KeyName(d.value) == key
  {
    if key == "Up" then Some(Up)
    else if key == "Down" then Some(Down)
    else if key == "Left" then Some(Left)
    else if key == "Right" then Some(Right)
    else None
  }

  lemma KeyRoundTrip(d: Direction)
    ensures KeyDirection(KeyName(d)) == Some(d)
  {
  }

  /** The heading after a key press: an arrow key sets the heading unless it
      names the reverse of the current one; every other key is ignored. */
  function Turn(current: Direction, key: string): (next: Direction)
    ensures next != Opposite(current)
    ensures KeyDirection(key).None? ==> next == current
    ensures KeyDirection(key).Some? && KeyDirection(key).value != Opposite(current) ==>
              next == KeyDirection(key).value
    ensures next != current ==> KeyDirection(key) == Some(next)
  {
    match KeyDirection(key)
    case None => current
    case Some(d) => if d == Opposite(current) then current else d
  }

  /** Grid adjacency: the cells are one unit apart along one axis. */
  predicate Adjacent(a: Cell, b: Cell) {
    (a.x == b.x && (a.y - b.y == 1 || b.y - a.y == 1)) ||
    (a.y == b.y && (a.x - b.x == 1 || b.x - a.x == 1))
  }

  /** The cell one step from `c` along `d`. */
  function NextHead(c: Cell, d: Direction): (r: Cell)
    ensures Adjacent(c, r)
  {
    match d
    case Up => Cell(c.x, c.y - 1)
    case Down => Cell(c.x, c.y + 1)
    case Left => Cell(c.x - 1, c.y)
    case Right => Cell(c.x + 1, c.y)
  }

  /** Stepping back along the opposite heading returns to the start, and
      different headings lead to different cells. */
  lemma NextHeadReversible(c: Cell, d: Direction, e: Direction)
    ensures NextHead(NextHead(c, d), Opposite(d)) == c
    ensures d != e ==> NextHead(c, d) != NextHead(c, e)
  {
  }

  predicate InGrid(c: Cell, w: int, h: int) {
    0 <= c.x < w && 0 <= c.y < h
  }

  predicate AllInGrid(s: seq<Cell>, w: int, h: int) {
    forall i :: 0 <= i < |s| ==> InGrid(s[i], w, h)
  }

  predicate Distinct(s: seq<Cell>) {
    forall i, j :: 0 <= i < j < |s| ==> s[i] != s[j]
  }

  /** Every pair of consecutive cells is grid-adjacent. */
  predicate Connected(s: seq<Cell>) {
    forall i :: 0 <= i < |s| - 1 ==> Adjacent(s[i], s[i + 1])
  }

  /** Row `y` of a board `w` cells wide. */
  function Row(w: int, y: int): set<Cell>
    decreases w
  {
    if w <= 0 then {} else Row(w - 1, y) + {Cell(w - 1, y)}
  }

  /** All cells of a `w` by `h` board, built a row at a time. */
  function GridCells(w: int, h: int): set<Cell>
    decreases h
  {
    if h <= 0 then {} else GridCells(w, h - 1) + Row(w, h - 1)
  }

  lemma {:induction false} RowMembers(w: int, y: int)
    ensures forall c :: c in Row(w, y) <==> 0 <= c.x < w && c.y == y
    decreases w
  {
    if w > 0 {
      RowMembers(w - 1, y);
    }
  }

  /** The board cells are exactly the in-grid cells. */
  lemma {:induction false} GridMembers(w: int, h: int)
    ensures forall c :: c in GridCells(w, h) <==> InGrid(c, w, h)
    decreases h
  {
    if h > 0 {
      GridMembers(w, h - 1);
      RowMembers(w, h - 1);
    }
  }

  lemma {:induction false} RowSize(w: nat, y: int)
    ensures |Row(w, y)| == w
  {
    if w > 0 {
      RowSize(w - 1, y);
      assert Cell(w - 1, y) !in Row(w - 1, y) by {
        RowMembers(w - 1, y);
      }
    }
  }

  lemma DisjointUnionSize(a: set<Cell>, b: set<Cell>)
    requires a !! b
    ensures |a + b| == |a| + |b|
  {
    assert a * b == {};
  }

  /** `w * h`, counted a row at a time. */
  function Area(w: nat, h: nat): nat {
    if h == 0 then 0 else Area(w, h - 1) + w
  }

  lemma {:induction false} AreaIsProduct(w: nat, h: nat)
    ensures Area(w, h) == w * h
  {
    if h > 0 {
      AreaIsProduct(w, h - 1);
      assert w * (h - 1) + w == w * h;
    }
  }

  /** Row `h` lies below a board `h` rows high. */
  lemma RowBelowBoard(w: int, h: int)
    ensures GridCells(w, h) !! Row(w, h)
  {
    GridMembers(w, h);
    RowMembers(w, h);
  }

  lemma {:induction false} GridRowsSize(w: nat, h: nat)
    ensures |GridCells(w, h)| == Area(w, h)
  {
    if h > 0 {
      GridRowsSize(w, h - 1);
      RowSize(w, h - 1);
      RowBelowBoard(w, h - 1);
      DisjointUnionSize(GridCells(w, h - 1), Row(w, h - 1));
    }
  }

  /** A `w` by `h` board has `w * h` cells. */
  lemma GridSize(w: nat, h: nat)
    ensures |GridCells(w, h)| == w * h
  {
    GridRowsSize(w, h);
    AreaIsProduct(w, h);
  }

  /** The cells a sequence occupies. */
  function CellSet(s: seq<Cell>): (r: set<Cell>)
    ensures forall c :: c in r <==> c in s
  {
    set c | c in s
  }

  /** A sequence of pairwise distinct cells occupies as many cells as it is long. */
  lemma {:induction false} DistinctCellCount(s: seq<Cell>)
    requires Distinct(s)
    ensures |CellSet(s)| == |s|
  {
    if s != [] {
      assert Distinct(s[1..]) by {
        forall i, j | 0 <= i < j < |s| - 1 ensures s[1..][i] != s[1..][j] {
          assert s[1..][i] == s[i + 1] && s[1..][j] == s[j + 1];
        }
      }
      DistinctCellCount(s[1..]);
      assert CellSet(s) == {s[0]} + CellSet(s[1..]);
      assert s[0] !in s[1..] by {
        forall i | 0 <= i < |s| - 1 ensures s[1..][i] != s[0] {
          assert s[1..][i] == s[i + 1];
        }
      }
    }
  }

  /** The board cells not occupied by `s`: where food may be placed. */
  function FreeCells(w: int, h: int, s: seq<Cell>): (r: set<Cell>)
    ensures forall c :: c in r <==> InGrid(c, w, h) && c !in s
  {
    set x: int, y: int | 0 <= x < w && 0 <= y < h && Cell(x, y) !in s :: Cell(x, y)
  }

  /** The free cells are the row-by-row board less the cells the snake occupies. */
  lemma FreeCellsOnBoard(w: int, h: int, s: seq<Cell>)
    ensures FreeCells(w, h, s) == GridCells(w, h) - CellSet(s)
  {
    GridMembers(w, h);
  }

  /** A snake of distinct in-grid cells leaves exactly as many free cells
      as the board has cells beyond its length. */
  lemma FreeCellCount(w: nat, h: nat, s: seq<Cell>)
    requires AllInGrid(s, w, h) && Distinct(s)
    ensures |FreeCells(w, h, s)| == w * h - |s|
  {
    var all, taken := GridCells(w, h), CellSet(s);
    GridSize(w, h);
    DistinctCellCount(s);
    assert taken <= all by {
      GridMembers(w, h);
    }
    assert all == (all - taken) + taken;
    assert |all - taken| == |all| - |taken|;
    FreeCellsOnBoard(w, h, s);
  }

  /** A snake of distinct in-grid cells that is shorter than the board has
      cells leaves at least one free cell. */
  lemma FreeCellExists(w: int, h: int, s: seq<Cell>)
    requires 0 < w && 0 < h
    requires AllInGrid(s, w, h) && Distinct(s) && |s| < w * h
    ensures FreeCells(w, h, s) != {}
  {
    FreeCellCount(w, h, s);
  }
}
