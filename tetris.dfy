/**
 * The Tetris game of TetrisGame.java: a 20 by 10 board of cells (0 empty,
 * 1 filled), a falling block with a shape and a position (x is the row of
 * its top edge, y the column of its left edge), a queue of blocks waiting
 * to fall, and the score, level and fall delay.  The board and the block
 * change in place; the grids below are their contents as values, which
 * the methods' contracts are stated in.
 */
module Tetris {

  const HEIGHT := 20
  const WIDTH := 10
  const DELAY := 500

  /** Rows of cells. */
  type Grid = seq<seq<int>>

  /** The five shapes a new block is drawn from: I, O, T, Z and S. */
  const Shapes: seq<Grid> := [
    [[1, 1, 1, 1]],
    [[1, 1], [1, 1]],
    [[1, 1, 1], [0, 1, 0]],
    [[1, 1, 0], [0, 1, 1]],
    [[0, 1, 1], [1, 1, 0]]
  ]

  predicate Rect(g: Grid, rows: nat, cols: nat) {
    |g| == rows && forall i :: 0 <= i < rows ==> |g[i]| == cols
  }

  predicate InBoard(r: int, c: int) {
    0 <= r < HEIGHT && 0 <= c < WIDTH
  }

  /** The contents of a two-dimensional array, row by row. */
  function Cells(a: array2<int>): (g: Grid)
    reads a
    ensures Rect(g, a.Length0, a.Length1)
    ensures forall i, j :: 0 <= i < a.Length0 && 0 <= j < a.Length1 ==> g[i][j] == a[i, j]
  {
    seq(a.Length0, i requires 0 <= i < a.Length0 reads a =>
      seq(a.Length1, j requires 0 <= j < a.Length1 reads a => a[i, j]))
  }

  lemma GridEquality(a: Grid, b: Grid, rows: nat, cols: nat)
    requires Rect(a, rows, cols) && Rect(b, rows, cols)
    requires forall i, j :: 0 <= i < rows && 0 <= j < cols ==> a[i][j] == b[i][j]
    ensures a == b
  {
    forall i | 0 <= i < rows ensures a[i] == b[i] {
      assert forall j :: 0 <= j < cols ==> a[i][j] == b[i][j];
    }
  }

  /** An empty board row. */
  function Blank(): (row: seq<int>)
    ensures |row| == WIDTH && forall j :: 0 <= j < WIDTH ==> row[j] == 0
  {
    seq(WIDTH, j => 0)
  }

  /** A row with no empty cell. */
  predicate Full(row: seq<int>) {
    forall j :: 0 <= j < |row| ==> row[j] != 0
  }

  // ---------------------------------------------------------------------
  // Shapes against the board
  // ---------------------------------------------------------------------

  /** Cell (i, j) of the shape, put at (nx, ny), is empty or lands on an empty board cell. */
  predicate CellFits(board: Grid, shape: Grid, nx: int, ny: int, i: int, j: int)
    requires Rect(board, HEIGHT, WIDTH)
    requires 0 <= i < |shape| && 0 <= j < |shape[i]|
  {
    shape[i][j] != 0 ==> InBoard(nx + i, ny + j) && board[nx + i][ny + j] == 0
  }

  /** The shape at (nx, ny) lies within the board and overlaps no filled cell. */
  predicate Fits(board: Grid, shape: Grid, nx: int, ny: int)
    requires Rect(board, HEIGHT, WIDTH)
  {
    forall i, j :: 0 <= i < |shape| && 0 <= j < |shape[i]| ==> CellFits(board, shape, nx, ny, i, j)
  }

  /** Cell (i, j) of the shape at (nx, ny) is empty or on the board. */
  predicate CellInside(shape: Grid, nx: int, ny: int, i: int, j: int)
    requires 0 <= i < |shape| && 0 <= j < |shape[i]|
  {
    shape[i][j] != 0 ==> InBoard(nx + i, ny + j)
  }

  /** Every filled cell of the shape at (nx, ny) is on the board. */
  predicate Inside(shape: Grid, nx: int, ny: int) {
    forall i, j :: 0 <= i < |shape| && 0 <= j < |shape[i]| ==> CellInside(shape, nx, ny, i, j)
  }

  /** A shape that fits lies within the board. */
  lemma FitsInside(board: Grid, shape: Grid, nx: int, ny: int)
    requires Rect(board, HEIGHT, WIDTH) && Fits(board, shape, nx, ny)
    ensures Inside(shape, nx, ny)
  {
    forall i, j | 0 <= i < |shape| && 0 <= j < |shape[i]| ensures CellInside(shape, nx, ny, i, j) {
      assert CellFits(board, shape, nx, ny, i, j);
    }
  }

  /** The column of a new block: the shape centred on the board. */
  function Spawn(shape: Grid): int
    requires |shape| > 0
  {
    WIDTH / 2 - |shape[0]| / 2
  }

  /** Every shape, put where a new block starts, lies within the board. */
  lemma ShapesInside(pick: nat)
    requires pick < |Shapes|
    ensures |Shapes[pick]| > 0 && Rect(Shapes[pick], |Shapes[pick]|, |Shapes[pick][0]|)
    ensures |Shapes[pick][0]| > 0 && Inside(Shapes[pick], 0, Spawn(Shapes[pick]))
  {
  }

  /** The shape turned a quarter clockwise: an r by c shape becomes c by r. */
  function Turned(g: Grid): (t: Grid)
    requires |g| > 0 && Rect(g, |g|, |g[0]|)
    ensures Rect(t, |g[0]|, |g|)
    ensures forall i, j :: 0 <= i < |g| && 0 <= j < |g[0]| ==> t[j][|g| - 1 - i] == g[i][j]
  {
    seq(|g[0]|, j requires 0 <= j < |g[0]| =>
      seq(|g|, k requires 0 <= k < |g| => g[|g| - 1 - k][j]))
  }

  /** Two quarter turns are a half turn. */
  lemma HalfTurn(g: Grid)
    requires |g| > 0 && |g[0]| > 0 && Rect(g, |g|, |g[0]|)
    ensures var h := Turned(Turned(g));
      Rect(h, |g|, |g[0]|) &&
      forall i, j :: 0 <= i < |g| && 0 <= j < |g[0]| ==> h[i][j] == g[|g| - 1 - i][|g[0]| - 1 - j]
  {
    var t := Turned(g);
    var h := Turned(t);
    forall i, j | 0 <= i < |g| && 0 <= j < |g[0]|
      ensures h[i][j] == g[|g| - 1 - i][|g[0]| - 1 - j]
    {
      var i', j' := |g| - 1 - i, |g[0]| - 1 - j;
      assert t[j'][|g| - 1 - i'] == g[i'][j'];
      assert h[i][|t| - 1 - j'] == t[j'][i];
    }
  }

  /** A half turn keeps the size of the shape. */
  lemma HalfTurnSize(g: Grid)
    requires |g| > 0 && |g[0]| > 0 && Rect(g, |g|, |g[0]|)
    ensures var h := Turned(Turned(g)); |h| == |g| && |h[0]| == |g[0]| && Rect(h, |g|, |g[0]|)
  {
    HalfTurn(g);
  }

  /** A half turn moves the cell at (i, j) to the opposite corner's side. */
  lemma HalfTurnAt(g: Grid, i: int, j: int)
    requires |g| > 0 && |g[0]| > 0 && Rect(g, |g|, |g[0]|) && 0 <= i < |g| && 0 <= j < |g[0]|
    ensures var h := Turned(Turned(g)); Rect(h, |g|, |g[0]|) && h[i][j] == g[|g| - 1 - i][|g[0]| - 1 - j]
  {
    HalfTurn(g);
  }

  /** Four quarter turns give the shape back. */
  lemma FourTurns(g: Grid)
    requires |g| > 0 && |g[0]| > 0 && Rect(g, |g|, |g[0]|)
    ensures Turned(Turned(Turned(Turned(g)))) == g
  {
    var rows, cols := |g|, |g[0]|;
    HalfTurnSize(g);
    var h := Turned(Turned(g));
    HalfTurnSize(h);
    var f := Turned(Turned(h));
    forall i, j | 0 <= i < rows && 0 <= j < cols ensures f[i][j] == g[i][j] {
      HalfTurnAt(h, i, j);
      HalfTurnAt(g, rows - 1 - i, cols - 1 - j);
    }
    GridEquality(f, g, rows, cols);
  }

  /** Board cell (r, c) lies under a filled cell of the shape at (nx, ny). */
  predicate Covers(shape: Grid, nx: int, ny: int, r: int, c: int) {
    0 <= r - nx < |shape| && 0 <= c - ny < |shape[r - nx]| && shape[r - nx][c - ny] != 0
  }

  /** The board with every cell under the shape at (nx, ny) filled with 1. */
  function Stamped(board: Grid, shape: Grid, nx: int, ny: int): (b: Grid)
    requires Rect(board, HEIGHT, WIDTH)
    ensures Rect(b, HEIGHT, WIDTH)
    ensures forall r, c :: InBoard(r, c) ==> b[r][c] == if Covers(shape, nx, ny, r, c) then 1 else board[r][c]
  {
    seq(HEIGHT, r requires 0 <= r < HEIGHT => seq(WIDTH, c requires 0 <= c < WIDTH =>
      if Covers(shape, nx, ny, r, c) then 1 else board[r][c]))
  }

  /** Placing changes only the covered cells, and the shape's cells on the board all end up filled. */
  lemma StampedCovers(board: Grid, shape: Grid, nx: int, ny: int)
    requires Rect(board, HEIGHT, WIDTH) && Inside(shape, nx, ny)
    ensures forall i, j :: 0 <= i < |shape| && 0 <= j < |shape[i]| && shape[i][j] != 0 ==>
      InBoard(nx + i, ny + j) && Stamped(board, shape, nx, ny)[nx + i][ny + j] == 1
  {
    forall i, j | 0 <= i < |shape| && 0 <= j < |shape[i]| && shape[i][j] != 0
      ensures InBoard(nx + i, ny + j) && Stamped(board, shape, nx, ny)[nx + i][ny + j] == 1
    {
      assert CellInside(shape, nx, ny, i, j);
      assert Covers(shape, nx, ny, nx + i, ny + j);
    }
  }

  // ---------------------------------------------------------------------
  // Completed rows
  // ---------------------------------------------------------------------

  /** The board with row r taken out, the rows above it moved down one, and an empty row on top. */
  function Removed(rows: Grid, r: nat): (b: Grid)
    requires r < |rows|
    ensures |b| == |rows|
  {
    [Blank()] + rows[..r] + rows[r + 1..]
  }

  lemma RemovedRows(rows: Grid, r: nat)
    requires r < |rows|
    ensures var b := Removed(rows, r);
      b[0] == Blank() &&
      (forall k :: 1 <= k <= r ==> b[k] == rows[k - 1]) &&
      (forall k :: r < k < |rows| ==> b[k] == rows[k])
  {
  }

  /** The game's state as far as clearing rows is concerned, with the number of rows removed. */
  datatype Tally = Tally(rows: Grid, score: int, level: int, delay: int, removed: nat)

  /** A source of power-up rows: the row cleared when the score reaches s. */
  ghost predicate Picker(luck: int -> int) {
    forall s :: 0 <= luck(s) < HEIGHT
  }

  /**
   * Rows i upwards are checked in turn; a full row is removed and earns
   * 100 points; at every multiple of 500 points the power-up clears the
   * row luck picks, and at every multiple of 1000 the level goes up and
   * the fall delay shortens by 50 per level.
   */
  ghost function Cleared(t: Tally, i: nat, luck: int -> int): (u: Tally)
    requires |t.rows| == HEIGHT && i <= HEIGHT && Picker(luck)
    ensures |u.rows| == HEIGHT
    decreases HEIGHT - i
  {
    if i == HEIGHT then t
    else if Full(t.rows[i]) then Cleared(Completed(t, i, luck), i + 1, luck)
    else Cleared(t, i + 1, luck)
  }

  /** Row i is full: it is removed, with what the new score brings. */
  ghost function Completed(t: Tally, i: nat, luck: int -> int): (u: Tally)
    requires |t.rows| == HEIGHT && i < HEIGHT && Picker(luck)
    ensures |u.rows| == HEIGHT && u.score == t.score + 100 && u.removed == t.removed + 1
  {
    var score := t.score + 100;
    var removed := Removed(t.rows, i);
    var rows := if score % 500 == 0 then removed[luck(score) := Blank()] else removed;
    var level := if score % 1000 == 0 then t.level + 1 else t.level;
    var delay := if score % 1000 == 0 then DELAY - level * 50 else t.delay;
    Tally(rows, score, level, delay, t.removed + 1)
  }

  /** Every removed row earns exactly 100 points, and at most one row is removed per row checked. */
  lemma {:induction false} ClearedScore(t: Tally, i: nat, luck: int -> int)
    requires |t.rows| == HEIGHT && i <= HEIGHT && Picker(luck)
    ensures var u := Cleared(t, i, luck);
      u.removed >= t.removed && u.removed - t.removed <= HEIGHT - i &&
      u.score == t.score + 100 * (u.removed - t.removed)
    decreases HEIGHT - i
  {
    if i < HEIGHT {
      if Full(t.rows[i]) {
        var c := Completed(t, i, luck);
        ClearedScore(c, i + 1, luck);
        assert Cleared(t, i, luck) == Cleared(c, i + 1, luck);
      } else {
        ClearedScore(t, i + 1, luck);
        assert Cleared(t, i, luck) == Cleared(t, i + 1, luck);
      }
    }
  }

  /**
   * Once the rows below i hold no full row, no full row is left at the
   * end: rows moved down were checked already, and the rows put in are
   * empty.
   */
  lemma {:induction false} ClearedNoFull(t: Tally, i: nat, luck: int -> int)
    requires Rect(t.rows, HEIGHT, WIDTH) && i <= HEIGHT && Picker(luck)
    requires forall k :: 0 <= k < i ==> !Full(t.rows[k])
    ensures var u := Cleared(t, i, luck);
      Rect(u.rows, HEIGHT, WIDTH) && forall k :: 0 <= k < HEIGHT ==> !Full(u.rows[k])
    decreases HEIGHT - i
  {
    if i < HEIGHT {
      if Full(t.rows[i]) {
        var score := t.score + 100;
        var removed := Removed(t.rows, i);
        RemovedRows(t.rows, i);
        assert !Full(Blank()) by { assert Blank()[0] == 0; }
        var rows := if score % 500 == 0 then removed[luck(score) := Blank()] else removed;
        assert Completed(t, i, luck).rows == rows;
        assert forall k :: 0 <= k <= i ==> !Full(rows[k]);
        ClearedNoFull(Completed(t, i, luck), i + 1, luck);
      } else {
        ClearedNoFull(t, i + 1, luck);
      }
    }
  }

  // ---------------------------------------------------------------------
  // The block and the game
  // ---------------------------------------------------------------------

  class Block {
    var shape: array2<int>
    var x: int
    var y: int

    /** A new block starts on the top row, centred. */
    constructor (shape: array2<int>)
      requires shape.Length0 >= 1
      ensures this.shape == shape && x == 0 && y == WIDTH / 2 - shape.Length1 / 2
    {
      this.shape := shape;
      x := 0;
      y := WIDTH / 2 - shape.Length1 / 2;
    }
  }

  /** A fresh array holding shape number pick. */
  method MakeShape(pick: nat) returns (shape: array2<int>)
    requires pick < |Shapes|
    ensures fresh(shape) && Cells(shape) == Shapes[pick]
  {
    ShapesInside(pick);
    var g := Shapes[pick];
    shape := new int[|g|, |g[0]|]((i, j) => if 0 <= i < |g| && 0 <= j < |g[0]| then g[i][j] else 0);
    GridEquality(Cells(shape), g, |g|, |g[0]|);
  }

  class Game {
    var board: array2<int>
    var current: Block?
    var queue: seq<Block>
    var score: int
    var level: int
    var delay: int

    function Board(): (b: Grid)
      reads this, board
    {
      Cells(board)
    }

    /**
     * The board is 20 by 10, a block is falling whose shape is not the
     * board, has a row and a column and lies within the board, and no
     * block waits in the queue.
     */
    ghost predicate Valid()
      reads this, board, current, if current == null then {} else {current.shape}
    {
      board.Length0 == HEIGHT && board.Length1 == WIDTH &&
      current != null && current.shape != board &&
      current.shape.Length0 >= 1 && current.shape.Length1 >= 1 &&
      Inside(Cells(current.shape), current.x, current.y) &&
      queue == []
    }

    /** An empty board and the first block, of shape pick, ready to fall at the starting delay. */
    constructor (pick: nat)
      requires pick < |Shapes|
      ensures Valid()
      ensures Board() == seq(HEIGHT, r => Blank())
      ensures Cells(current.shape) == Shapes[pick] && current.x == 0 && current.y == Spawn(Shapes[pick])
      ensures score == 0 && level == 1 && delay == DELAY
    {
      board := new int[HEIGHT, WIDTH]((r, c) => 0);
      current := null;
      queue := [];
      score := 0;
      level := 1;
      delay := DELAY;
      new;
      var made := GenerateBlockAsWritten(pick);
      ShapesInside(pick);
      GridEquality(Board(), seq(HEIGHT, r => Blank()), HEIGHT, WIDTH);
    }

    /**
     * generateBlock as written: the new block joins the queue, and it is
     * taken off the queue only when no block is falling.  Once the game
     * has started a block is always falling, so the blocks generated when
     * one is placed pile up in the queue and the placed block keeps
     * falling.
     */
    method GenerateBlockAsWritten(pick: nat) returns (made: Block)
      requires pick < |Shapes|
      modifies this
      ensures fresh(made) && fresh(made.shape) && Cells(made.shape) == Shapes[pick]
      ensures made.x == 0 && made.y == Spawn(Shapes[pick])
      ensures old(current) != null ==> current == old(current) && queue == old(queue) + [made]
      ensures old(current) == null ==> current == (old(queue) + [made])[0] && queue == (old(queue) + [made])[1..]
      ensures board == old(board) && score == old(score) && level == old(level) && delay == old(delay)
    {
      ShapesInside(pick);
      var shape := MakeShape(pick);
      made := new Block(shape);
      queue := queue + [made];
      if current == null {
        current := queue[0];
        queue := queue[1..];
      }
    }

    /** generateBlock as intended: the new block joins the queue and the block at its head falls next. */
    method GenerateBlock(pick: nat) returns (made: Block)
      requires pick < |Shapes|
      modifies this
      ensures fresh(made) && fresh(made.shape) && Cells(made.shape) == Shapes[pick]
      ensures made.x == 0 && made.y == Spawn(Shapes[pick])
      ensures current == (old(queue) + [made])[0] && queue == (old(queue) + [made])[1..]
      ensures board == old(board) && score == old(score) && level == old(level) && delay == old(delay)
    {
      ShapesInside(pick);
      var shape := MakeShape(pick);
      made := new Block(shape);
      queue := queue + [made];
      current := queue[0];
      queue := queue[1..];
    }

    /** The block's shape at (newX, newY) fits the board. */
    method IsValidMove(block: Block, newX: int, newY: int) returns (ok: bool)
      requires board.Length0 == HEIGHT && board.Length1 == WIDTH
      ensures ok <==> Fits(Board(), Cells(block.shape), newX, newY)
    {
      ghost var b, s := Board(), Cells(block.shape);
      for i := 0 to block.shape.Length0
        invariant forall i', j :: 0 <= i' < i && 0 <= j < block.shape.Length1 ==> CellFits(b, s, newX, newY, i', j)
      {
        for j := 0 to block.shape.Length1
          invariant forall j' :: 0 <= j' < j ==> CellFits(b, s, newX, newY, i, j')
          invariant forall i', j' :: 0 <= i' < i && 0 <= j' < block.shape.Length1 ==> CellFits(b, s, newX, newY, i', j')
        {
          if block.shape[i, j] != 0 {
            var x := newX + i;
            var y := newY + j;
            if x < 0 || x >= HEIGHT || y < 0 || y >= WIDTH || board[x, y] != 0 {
              assert !CellFits(b, s, newX, newY, i, j);
              return false;
            }
          }
        }
      }
      return true;
    }

    /** The block moves one column left when it fits there, and stays put otherwise. */
    method MoveLeft()
      requires Valid()
      modifies current
      ensures Valid() && Board() == old(Board())
      ensures current == old(current) && current.shape == old(current.shape) && current.x == old(current.x)
      ensures current.y == if Fits(Board(), Cells(current.shape), current.x, old(current.y) - 1)
        then old(current.y) - 1 else old(current.y)
    {
      var ok := IsValidMove(current, current.x, current.y - 1);
      if ok {
        FitsInside(Board(), Cells(current.shape), current.x, current.y - 1);
        current.y := current.y - 1;
      }
    }

    /** The block moves one column right when it fits there, and stays put otherwise. */
    method MoveRight()
      requires Valid()
      modifies current
      ensures Valid() && Board() == old(Board())
      ensures current == old(current) && current.shape == old(current.shape) && current.x == old(current.x)
      ensures current.y == if Fits(Board(), Cells(current.shape), current.x, old(current.y) + 1)
        then old(current.y) + 1 else old(current.y)
    {
      var ok := IsValidMove(current, current.x, current.y + 1);
      if ok {
        FitsInside(Board(), Cells(current.shape), current.x, current.y + 1);
        current.y := current.y + 1;
      }
    }

    /** The shape turned a quarter clockwise, in a new array. */
    method RotateShape(shape: array2<int>) returns (rotated: array2<int>)
      requires shape.Length0 >= 1
      ensures fresh(rotated) && rotated.Length0 == shape.Length1 && rotated.Length1 == shape.Length0
      ensures Cells(rotated) == Turned(Cells(shape))
    {
      var rows := shape.Length0;
      var cols := shape.Length1;
      rotated := new int[cols, rows];
      for i := 0 to rows
        invariant forall i', j :: 0 <= i' < i && 0 <= j < cols ==> rotated[j, rows - 1 - i'] == shape[i', j]
      {
        for j := 0 to cols
          invariant forall j' :: 0 <= j' < j ==> rotated[j', rows - 1 - i] == shape[i, j']
          invariant forall i', j' :: 0 <= i' < i && 0 <= j' < cols ==> rotated[j', rows - 1 - i'] == shape[i', j']
        {
          rotated[j, rows - 1 - i] := shape[i, j];
        }
      }
      ghost var g := Cells(shape);
      forall j, k | 0 <= j < cols && 0 <= k < rows ensures Cells(rotated)[j][k] == Turned(g)[j][k] {
        var i := rows - 1 - k;
        assert rotated[j, rows - 1 - i] == shape[i, j];
      }
      GridEquality(Cells(rotated), Turned(g), cols, rows);
    }

    /** The block turns a quarter clockwise when the turned shape fits where it is, and stays as it was otherwise. */
    method Rotate()
      requires Valid()
      modifies current
      ensures Valid() && Board() == old(Board())
      ensures current == old(current) && current.x == old(current.x) && current.y == old(current.y)
      ensures var turned := Turned(old(Cells(current.shape)));
        Cells(current.shape) == if Fits(Board(), turned, current.x, current.y) then turned else old(Cells(current.shape))
    {
      var rotatedShape := RotateShape(current.shape);
      var probe := new Block(rotatedShape);
      var ok := IsValidMove(probe, current.x, current.y);
      if ok {
        FitsInside(Board(), Cells(rotatedShape), current.x, current.y);
        current.shape := rotatedShape;
      }
    }

    /** Every row of the board that lies under the falling block and is in row i of its shape gets filled. */
    method StampRow(i: int)
      requires Valid() && 0 <= i < current.shape.Length0
      modifies board
      ensures forall r, c :: InBoard(r, c) ==>
        board[r, c] == if r == current.x + i && Covers(Cells(current.shape), current.x, current.y, r, c) then 1 else old(board[r, c])
    {
      ghost var s := Cells(current.shape);
      for j := 0 to current.shape.Length1
        invariant forall r, c :: InBoard(r, c) ==>
          board[r, c] == if r == current.x + i && c - current.y < j && Covers(s, current.x, current.y, r, c) then 1 else old(board[r, c])
      {
        if current.shape[i, j] != 0 {
          assert CellInside(s, current.x, current.y, i, j);
          var x := current.x + i;
          var y := current.y + j;
          board[x, y] := 1;
        }
      }
    }

    /** The first loop of placeBlock: every cell under the block is filled. */
    method Stamp()
      requires Valid()
      modifies board
      ensures Board() == Stamped(old(Board()), Cells(current.shape), current.x, current.y)
    {
      ghost var s := Cells(current.shape);
      ghost var b := Board();
      for i := 0 to current.shape.Length0
        invariant forall r, c :: InBoard(r, c) ==>
          board[r, c] == if r - current.x < i && Covers(s, current.x, current.y, r, c) then 1 else b[r][c]
      {
        StampRow(i);
      }
      GridEquality(Board(), Stamped(b, s, current.x, current.y), HEIGHT, WIDTH);
    }

    /** Arrays.fill of row r with 0. */
    method ClearRow(r: int)
      requires board.Length0 == HEIGHT && board.Length1 == WIDTH && 0 <= r < HEIGHT
      modifies board
      ensures Board() == old(Board())[r := Blank()]
    {
      ghost var b := Board();
      for c := 0 to WIDTH
        invariant forall r', c' :: InBoard(r', c') ==> board[r', c'] == if r' == r && c' < c then 0 else b[r'][c']
      {
        board[r, c] := 0;
      }
      GridEquality(Board(), b[r := Blank()], HEIGHT, WIDTH);
    }

    /** System.arraycopy of row from onto row to. */
    method CopyRow(from: int, to: int)
      requires board.Length0 == HEIGHT && board.Length1 == WIDTH && 0 <= from < HEIGHT && 0 <= to < HEIGHT
      modifies board
      ensures Board() == old(Board())[to := old(Board())[from]]
    {
      ghost var b := Board();
      for c := 0 to WIDTH
        invariant forall r', c' :: InBoard(r', c') ==> board[r', c'] == if r' == to && c' < c then b[from][c'] else b[r'][c']
      {
        board[to, c] := board[from, c];
      }
      GridEquality(Board(), b[to := b[from]], HEIGHT, WIDTH);
    }

    /** Row `row` is removed: the rows above move down one and the top row is emptied. */
    method RemoveRow(row: int)
      requires board.Length0 == HEIGHT && board.Length1 == WIDTH && 0 <= row < HEIGHT
      modifies board
      ensures Board() == Removed(old(Board()), row)
    {
      ghost var b := Board();
      var i := row;
      while i > 0
        invariant 0 <= i <= row && board.Length0 == HEIGHT && board.Length1 == WIDTH
        invariant |Board()| == HEIGHT
        invariant forall k :: 0 <= k <= i || row < k < HEIGHT ==> Board()[k] == b[k]
        invariant forall k :: i < k <= row ==> Board()[k] == b[k - 1]
      {
        CopyRow(i - 1, i);
        i := i - 1;
      }
      ClearRow(0);
      RemovedRows(b, row);
      assert forall k :: 0 <= k < HEIGHT ==> Board()[k] == Removed(b, row)[k];
    }

    /** Row i of the board has no empty cell. */
    method RowComplete(i: int) returns (complete: bool)
      requires board.Length0 == HEIGHT && board.Length1 == WIDTH && 0 <= i < HEIGHT
      ensures complete <==> Full(Board()[i])
    {
      complete := true;
      for j := 0 to WIDTH
        invariant forall j' :: 0 <= j' < j ==> board[i, j'] != 0
      {
        if board[i, j] == 0 {
          complete := false;
          break;
        }
      }
    }

    /**
     * Every full row is removed, bottom-most last, for 100 points each,
     * with the power-ups and level changes the score brings; luck stands
     * for the random row a power-up clears.
     */
    method CheckCompletedRows(luck: int -> int)
      requires board.Length0 == HEIGHT && board.Length1 == WIDTH && Picker(luck)
      modifies this`score, this`level, this`delay, board
      ensures var u := Cleared(Tally(old(Board()), old(score), old(level), old(delay), 0), 0, luck);
        Board() == u.rows && score == u.score && level == u.level && delay == u.delay &&
        u.removed <= HEIGHT && score == old(score) + 100 * u.removed
      ensures forall k :: 0 <= k < HEIGHT ==> !Full(Board()[k])
    {
      ghost var start := Tally(Board(), score, level, delay, 0);
      ghost var goal := Cleared(start, 0, luck);
      ghost var removed := 0;
      for i := 0 to HEIGHT
        invariant Cleared(Tally(Board(), score, level, delay, removed), i, luck) == goal
      {
        var isComplete := RowComplete(i);
        if isComplete {
          CompleteRow(i, luck, removed);
          removed := removed + 1;
        }
      }
      ClearedNoFull(start, 0, luck);
      ClearedScore(start, 0, luck);
    }

    /** The body of checkCompletedRows for a full row i. */
    method CompleteRow(i: int, luck: int -> int, ghost removed: nat)
      requires board.Length0 == HEIGHT && board.Length1 == WIDTH && 0 <= i < HEIGHT && Picker(luck)
      modifies this`score, this`level, this`delay, board
      ensures Tally(Board(), score, level, delay, removed + 1) ==
        Completed(Tally(old(Board()), old(score), old(level), old(delay), removed), i, luck)
    {
      ghost var removedRows := Removed(Board(), i);
      RemoveRow(i);
      assert Board() == removedRows;
      score := score + 100;
      if score % 500 == 0 {
        ClearRow(luck(score));
        assert Board() == removedRows[luck(score) := Blank()];
      }
      if score % 1000 == 0 {
        level := level + 1;
        delay := DELAY - level * 50;
      }
    }

    /** The first part of placeBlock: the block is stamped onto the board and the completed rows are cleared. */
    method Land(luck: int -> int)
      requires Valid() && Picker(luck)
      modifies this`score, this`level, this`delay, board
      ensures var u := Cleared(Tally(Stamped(old(Board()), Cells(current.shape), current.x, current.y),
                                     old(score), old(level), old(delay), 0), 0, luck);
        Board() == u.rows && score == u.score && level == u.level && delay == u.delay
      ensures forall k :: 0 <= k < HEIGHT ==> !Full(Board()[k])
    {
      ghost var stamped := Stamped(Board(), Cells(current.shape), current.x, current.y);
      Stamp();
      assert Board() == stamped;
      CheckCompletedRows(luck);
    }

    /**
     * The block is written onto the board, full rows are cleared, and the
     * next block, of shape pick, starts to fall.
     */
    method PlaceBlock(pick: nat, luck: int -> int)
      requires Valid() && pick < |Shapes| && Picker(luck)
      modifies this, board
      ensures Valid() && board == old(board)
      ensures var u := Cleared(Tally(Stamped(old(Board()), old(Cells(current.shape)), old(current.x), old(current.y)),
                                     old(score), old(level), old(delay), 0), 0, luck);
        Board() == u.rows && score == u.score && level == u.level && delay == u.delay
      ensures fresh(current) && Cells(current.shape) == Shapes[pick] && current.x == 0 && current.y == Spawn(Shapes[pick])
      ensures forall k :: 0 <= k < HEIGHT ==> !Full(Board()[k])
    {
      ShapesInside(pick);
      Land(luck);
      var made := GenerateBlock(pick);
    }

    /**
     * placeBlock as written: after the block is written onto the board the
     * same block goes on falling from where it was placed, and the new
     * block only joins the queue.
     */
    method PlaceBlockAsWritten(pick: nat, luck: int -> int)
      requires Valid() && pick < |Shapes| && Picker(luck)
      modifies this, board
      ensures board == old(board)
      ensures var u := Cleared(Tally(Stamped(old(Board()), old(Cells(current.shape)), old(current.x), old(current.y)),
                                     old(score), old(level), old(delay), 0), 0, luck);
        Board() == u.rows && score == u.score && level == u.level && delay == u.delay
      ensures current == old(current) && current.x == old(current.x) && current.y == old(current.y)
      ensures |queue| == 1 && fresh(queue[0])
    {
      Land(luck);
      var made := GenerateBlockAsWritten(pick);
    }

    /** The block drops one row when it fits there; otherwise it is placed and the next one starts. */
    method MoveDown(pick: nat, luck: int -> int)
      requires Valid() && pick < |Shapes| && Picker(luck)
      modifies this, board, current
      ensures Valid() && board == old(board)
      ensures old(Fits(Board(), Cells(current.shape), current.x + 1, current.y)) ==>
        current == old(current) && current.shape == old(current.shape) &&
        current.x == old(current.x) + 1 && current.y == old(current.y) &&
        Board() == old(Board()) && score == old(score) && level == old(level) && delay == old(delay)
      ensures !old(Fits(Board(), Cells(current.shape), current.x + 1, current.y)) ==>
        var u := Cleared(Tally(Stamped(old(Board()), old(Cells(current.shape)), old(current.x), old(current.y)),
                               old(score), old(level), old(delay), 0), 0, luck);
        Board() == u.rows && score == u.score && level == u.level && delay == u.delay &&
        fresh(current) && Cells(current.shape) == Shapes[pick] && current.x == 0 && current.y == Spawn(Shapes[pick])
    {
      var ok := IsValidMove(current, current.x + 1, current.y);
      if ok {
        FitsInside(Board(), Cells(current.shape), current.x + 1, current.y);
        current.x := current.x + 1;
      } else {
        PlaceBlock(pick, luck);
      }
    }

    /** The game is over exactly when the top row has a filled cell. */
    method IsGameOver() returns (over: bool)
      requires board.Length0 == HEIGHT && board.Length1 == WIDTH
      ensures over <==> exists j :: 0 <= j < WIDTH && Board()[0][j] != 0
    {
      for j := 0 to WIDTH
        invariant forall j' :: 0 <= j' < j ==> board[0, j'] == 0
      {
        if board[0, j] != 0 {
          assert Board()[0][j] != 0;
          return true;
        }
      }
      return false;
    }
  }
}
