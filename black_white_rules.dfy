/** The rules of the Black & White path game (src/components/games/BlackWhiteGame.tsx)
    on values: the board of `(size + 2) × (size + 2)` cells whose outer ring is
    the frame, the player's path, and what a click, an undo and a restart do to
    the game's state. The component's class in module BlackWhiteGame is
    specified by these functions. */
module BlackWhiteRules {
  import opened Common

  datatype Cell = Black | White | Frame

  datatype Position = Position(row: int, col: int)

  type Grid = seq<seq<Cell>>

  /** `isFrame(row, col)` on a board of `total` cells per side. */
  predicate IsFrame(total: int, row: int, col: int)
  {
    row == 0 || row == total - 1 || col == 0 || col == total - 1
  }

  /** `isInner(row, col)`. */
  predicate IsInner(total: int, row: int, col: int)
  {
    !IsFrame(total, row, col)
  }

  /** `isInnerCell(row, col)` of the path generator. */
  predicate InnerCell(size: int, row: int, col: int)
  {
    1 <= row <= size && 1 <= col <= size
  }

  /** A cell of the rendered board. */
  predicate InBoard(size: int, p: Position)
  {
    0 <= p.row < size + 2 && 0 <= p.col < size + 2
  }

  /** On the board the frame is exactly the outer ring: a cell is a frame
      cell iff it is not one of the `size × size` inner cells. */
  lemma FrameIsRing(size: int, p: Position)
    requires size >= 0 && InBoard(size, p)
    ensures IsFrame(size + 2, p.row, p.col) <==> !InnerCell(size, p.row, p.col)
    ensures IsFrame(size + 2, p.row, p.col) <==> (p.row in {0, size + 1} || p.col in {0, size + 1})
  {
  }

  function Abs(x: int): nat
  {
    if x < 0 then -x else x
  }

  /** `isAdjacent(pos1, pos2)`. */
  predicate IsAdjacent(p: Position, q: Position)
  {
    var dr := Abs(p.row - q.row);
    var dc := Abs(p.col - q.col);
    (dr == 1 && dc == 0) || (dr == 0 && dc == 1)
  }

  /** Adjacent means at Manhattan distance one, in either order. */
  lemma AdjacentIsManhattan(p: Position, q: Position)
    ensures IsAdjacent(p, q) <==> Abs(p.row - q.row) + Abs(p.col - q.col) == 1
    ensures IsAdjacent(p, q) <==> IsAdjacent(q, p)
  {
  }

  // ---------------------------------------------------------------------------
  // Boards

  /** A board of `total` rows of `total` cells. */
  predicate Shaped(b: Grid, total: int)
  {
    |b| == total && forall r :: 0 <= r < |b| ==> |b[r]| == total
  }

  /** Frame cells exactly on the ring, black or white inside. */
  predicate Framed(b: Grid, size: int)
    requires Shaped(b, size + 2)
  {
    forall r, c :: 0 <= r < size + 2 && 0 <= c < size + 2 ==> (b[r][c] == Frame <==> IsFrame(size + 2, r, c))
  }

  /** Every inner column has one colour. */
  predicate ColumnsUniform(b: Grid, size: int)
    requires size >= 0 && Shaped(b, size + 2)
  {
    forall c, r :: 1 <= c <= size && 2 <= r <= size ==> b[r][c] == b[1][c]
  }

  /** Every inner row has one colour. */
  predicate RowsUniform(b: Grid, size: int)
    requires size >= 0 && Shaped(b, size + 2)
  {
    forall r, c :: 1 <= r <= size && 2 <= c <= size ==> b[r][c] == b[r][1]
  }

  /** What `checkWin` decides. */
  predicate Won(b: Grid, size: int)
    requires size >= 0 && Shaped(b, size + 2)
  {
    ColumnsUniform(b, size) || RowsUniform(b, size)
  }

  /** Comparing with the first cell is the same as asking that any two cells
      of a column (of a row) agree. */
  lemma WonIff(b: Grid, size: int)
    requires size >= 0 && Shaped(b, size + 2)
    ensures Won(b, size) <==>
      (forall c, r1, r2 :: 1 <= c <= size && 1 <= r1 <= size && 1 <= r2 <= size ==> b[r1][c] == b[r2][c])
      || (forall r, c1, c2 :: 1 <= r <= size && 1 <= c1 <= size && 1 <= c2 <= size ==> b[r][c1] == b[r][c2])
  {
    if ColumnsUniform(b, size) {
      forall c, r1, r2 | 1 <= c <= size && 1 <= r1 <= size && 1 <= r2 <= size
        ensures b[r1][c] == b[r2][c]
      {
        assert r1 == 1 || b[r1][c] == b[1][c];
        assert r2 == 1 || b[r2][c] == b[1][c];
      }
    }
    if RowsUniform(b, size) {
      forall r, c1, c2 | 1 <= r <= size && 1 <= c1 <= size && 1 <= c2 <= size
        ensures b[r][c1] == b[r][c2]
      {
        assert c1 == 1 || b[r][c1] == b[r][1];
        assert c2 == 1 || b[r][c2] == b[r][1];
      }
    }
  }

  /** The colour change of a move and of its undo: black becomes white and
      anything else black. */
  function Toggle(v: Cell): Cell
  {
    if v == Black then White else Black
  }

  /** The board with cell `(row, col)` toggled. */
  function FlipAt(b: Grid, row: int, col: int): Grid
    requires 0 <= row < |b| && 0 <= col < |b[row]|
  {
    b[row := b[row][col := Toggle(b[row][col])]]
  }

  lemma FlipAtShape(b: Grid, total: int, row: int, col: int)
    requires Shaped(b, total) && 0 <= row < total && 0 <= col < total
    ensures Shaped(FlipAt(b, row, col), total)
    ensures forall r, c :: 0 <= r < total && 0 <= c < total ==>
      FlipAt(b, row, col)[r][c] == if r == row && c == col then Toggle(b[r][c]) else b[r][c]
  {
  }

  /** The original board with every inner cell of the path toggled: what the
      board is after the player walked `path`. */
  function Traced(b: Grid, size: int, path: seq<Position>): (t: Grid)
    requires size >= 0 && Shaped(b, size + 2)
  {
    seq(size + 2, r requires 0 <= r < size + 2 =>
      seq(size + 2, c requires 0 <= c < size + 2 =>
        if IsInner(size + 2, r, c) && Position(r, c) in path then Toggle(b[r][c]) else b[r][c]))
  }

  lemma TracedShape(b: Grid, size: int, path: seq<Position>)
    requires size >= 0 && Shaped(b, size + 2)
    ensures Shaped(Traced(b, size, path), size + 2)
  {
  }

  /** Two boards of the same shape are equal when all their cells are. */
  lemma GridEq(a: Grid, b: Grid, total: int)
    requires Shaped(a, total) && Shaped(b, total)
    requires forall r, c :: 0 <= r < total && 0 <= c < total ==> a[r][c] == b[r][c]
    ensures a == b
  {
    forall r | 0 <= r < total
      ensures a[r] == b[r]
    {
      assert |a[r]| == |b[r]| == total;
    }
  }

  lemma TracedEmpty(b: Grid, size: int)
    requires size >= 0 && Shaped(b, size + 2)
    ensures Traced(b, size, []) == b
  {
    TracedShape(b, size, []);
    GridEq(Traced(b, size, []), b, size + 2);
  }

  /** Walking on to a new inner cell toggles it; a frame cell changes nothing. */
  lemma TracedSnoc(b: Grid, size: int, path: seq<Position>, p: Position)
    requires size >= 0 && Shaped(b, size + 2) && InBoard(size, p) && p !in path
    ensures Shaped(Traced(b, size, path), size + 2)
    ensures Traced(b, size, path + [p]) ==
      if IsInner(size + 2, p.row, p.col) then FlipAt(Traced(b, size, path), p.row, p.col) else Traced(b, size, path)
  {
    var t := Traced(b, size, path);
    var u := Traced(b, size, path + [p]);
    TracedShape(b, size, path);
    TracedShape(b, size, path + [p]);
    if IsInner(size + 2, p.row, p.col) {
      FlipAtShape(t, size + 2, p.row, p.col);
      forall r, c | 0 <= r < size + 2 && 0 <= c < size + 2
        ensures u[r][c] == FlipAt(t, p.row, p.col)[r][c]
      {
        assert (Position(r, c) in path + [p]) <==> (Position(r, c) in path || Position(r, c) == p);
      }
      GridEq(u, FlipAt(t, p.row, p.col), size + 2);
    } else {
      forall r, c | 0 <= r < size + 2 && 0 <= c < size + 2
        ensures u[r][c] == t[r][c]
      {
        assert (Position(r, c) in path + [p]) <==> (Position(r, c) in path || Position(r, c) == p);
      }
      GridEq(u, t, size + 2);
    }
  }

  // ---------------------------------------------------------------------------
  // The game state

  /** The component's state: the current and the original board, the path
      walked so far, the current and the start position, and the flags. */
  datatype Play = Play(board: Grid, original: Grid, path: seq<Position>, current: Option<Position>,
                       start: Option<Position>, won: bool, generating: bool)

  /** The state `generateNewBoard` leaves: a new board, no start, no path. */
  function Fresh(b: Grid): Play
  {
    Play(b, b, [], None, None, false, false)
  }

  /** What holds between the state variables between two events. */
  ghost predicate ValidPlay(g: Play, size: int)
  {
    size >= 1 && Shaped(g.original, size + 2) && Framed(g.original, size)
    && Distinct(g.path) && (forall i :: 0 <= i < |g.path| ==> InBoard(size, g.path[i]))
    && g.board == Traced(g.original, size, g.path)
    && g.current == (if g.path == [] then g.start else Some(g.path[|g.path| - 1]))
    && (g.path != [] ==> g.start.Some?)
    && (g.start.Some? ==> InBoard(size, g.start.value) && IsFrame(size + 2, g.start.value.row, g.start.value.col)
                          && g.start.value !in g.path)
    && !g.generating
    && (g.won ==> Shaped(g.board, size + 2) && Won(g.board, size))
  }

  lemma ValidShaped(g: Play, size: int)
    requires ValidPlay(g, size)
    ensures Shaped(g.board, size + 2)
  {
    TracedShape(g.original, size, g.path);
  }

  lemma FreshValid(b: Grid, size: int)
    requires size >= 1 && Shaped(b, size + 2) && Framed(b, size)
    ensures ValidPlay(Fresh(b), size)
  {
    TracedEmpty(b, size);
  }

  /** The move `handleCellClick` accepts: the game is neither won nor being
      generated, the click does not (re)place the start, and the target is
      adjacent to the current position, not on the path and not the start. */
  predicate Accepted(g: Play, size: int, p: Position)
  {
    !g.won && !g.generating
    && !(IsFrame(size + 2, p.row, p.col) && (g.start.None? || |g.path| == 0))
    && g.current.Some? && IsAdjacent(g.current.value, p) && p !in g.path
    && g.start != Some(p)
  }

  /** The accepted move to `p`: the target joins the path and becomes the
      current position, an inner target is toggled, and a uniform board wins. */
  function Move(g: Play, size: int, p: Position): Play
    requires size >= 0 && Shaped(g.board, size + 2) && InBoard(size, p)
  {
    var b := if IsInner(size + 2, p.row, p.col) then FlipAt(g.board, p.row, p.col) else g.board;
    FlipAtShape(g.board, size + 2, p.row, p.col);
    g.(board := b, path := g.path + [p], current := Some(p), won := if Won(b, size) then true else g.won)
  }

  /** `handleCellClick(row, col)`. */
  function Click(g: Play, size: int, row: int, col: int): Play
    requires size >= 0 && Shaped(g.board, size + 2) && InBoard(size, Position(row, col))
  {
    var p := Position(row, col);
    if g.won || g.generating then g
    else if g.start.None? && IsFrame(size + 2, row, col) then
      g.(start := Some(p), current := Some(p), path := [], board := g.original)
    else if IsFrame(size + 2, row, col) && |g.path| == 0 then
      g.(start := Some(p), current := Some(p), board := g.original)
    else if g.current.Some? && IsAdjacent(g.current.value, p) && p !in g.path then
      if g.start.Some? && g.start.value == p then g
      else Move(g, size, p)
    else g
  }

  lemma ClickIsMove(g: Play, size: int, p: Position)
    requires size >= 0 && Shaped(g.board, size + 2) && InBoard(size, p) && Accepted(g, size, p)
    ensures Click(g, size, p.row, p.col) == Move(g, size, p)
  {
  }

  /** An accepted move keeps the invariant. */
  lemma MoveValid(g: Play, size: int, p: Position)
    requires ValidPlay(g, size) && InBoard(size, p) && Accepted(g, size, p)
    ensures Shaped(g.board, size + 2)
    ensures ValidPlay(Move(g, size, p), size)
  {
    ValidShaped(g, size);
    FlipAtShape(g.board, size + 2, p.row, p.col);
    TracedSnoc(g.original, size, g.path, p);
    DistinctSnoc(g.path, p);
  }

  /** A click that is not an accepted move either places the start (on a frame
      cell, with nothing walked yet: the original board comes back and the
      path stays empty) or changes nothing. An accepted move appends the
      target to the path, makes it current, toggles exactly the target when it
      is inner, and wins when the new board is uniform. */
  lemma ClickCases(g: Play, size: int, row: int, col: int)
    requires ValidPlay(g, size) && InBoard(size, Position(row, col))
    ensures Shaped(g.board, size + 2)
    ensures var p := Position(row, col);
      var r := Click(g, size, row, col);
      (Accepted(g, size, p) <==> r.path == g.path + [p])
      && (Accepted(g, size, p) ==>
            r.current == Some(p) && r.start == g.start && r.original == g.original
            && Shaped(r.board, size + 2)
            && (forall i, j :: 0 <= i < size + 2 && 0 <= j < size + 2 ==>
                  r.board[i][j] == if i == row && j == col && IsInner(size + 2, row, col) then Toggle(g.board[i][j])
                                   else g.board[i][j])
            && r.won == Won(r.board, size))
      && (!Accepted(g, size, p) && !g.won && IsFrame(size + 2, row, col) && (g.start.None? || |g.path| == 0) ==>
            r == g.(start := Some(p), current := Some(p), path := [], board := g.original))
      && (!Accepted(g, size, p) && !(!g.won && IsFrame(size + 2, row, col) && (g.start.None? || |g.path| == 0)) ==>
            r == g)
  {
    ValidShaped(g, size);
    FlipAtShape(g.board, size + 2, row, col);
  }

  /** `undoMove`. */
  function Undo(g: Play, size: int): Play
    requires size >= 0 && Shaped(g.board, size + 2)
    requires g.path != [] ==> InBoard(size, g.path[|g.path| - 1])
  {
    if |g.path| > 0 && !g.won then
      var last := g.path[|g.path| - 1];
      var newPath := g.path[..|g.path| - 1];
      var b := if IsInner(size + 2, last.row, last.col) then FlipAt(g.board, last.row, last.col) else g.board;
      g.(board := b, path := newPath, current := if |newPath| > 0 then Some(newPath[|newPath| - 1]) else g.start)
    else g
  }

  /** `restart`. */
  function Restart(g: Play): Play
  {
    g.(board := g.original, path := [], current := g.start, won := false)
  }

  lemma ToggleTwice(v: Cell)
    requires v != Frame
    ensures Toggle(Toggle(v)) == v
  {
  }

  /** An undo right after an accepted move that did not win gives back the
      state before the move: the board, the path and the current position. */
  lemma UndoInvertsMove(g: Play, size: int, row: int, col: int)
    requires ValidPlay(g, size) && InBoard(size, Position(row, col))
    requires Shaped(g.board, size + 2)
    requires Accepted(g, size, Position(row, col)) && !Click(g, size, row, col).won
    ensures Shaped(Click(g, size, row, col).board, size + 2)
    ensures Undo(Click(g, size, row, col), size) == g
  {
    var p := Position(row, col);
    var h := Click(g, size, row, col);
    ClickCases(g, size, row, col);
    assert h.path[..|h.path| - 1] == g.path;
    if IsInner(size + 2, row, col) {
      TracedShape(g.original, size, g.path);
      FramedInner(g, size, p);
      FlipAtShape(h.board, size + 2, row, col);
      forall i, j | 0 <= i < size + 2 && 0 <= j < size + 2
        ensures FlipAt(h.board, row, col)[i][j] == g.board[i][j]
      {
        if i == row && j == col {
          ToggleTwice(g.board[i][j]);
        }
      }
      GridEq(FlipAt(h.board, row, col), g.board, size + 2);
    }
  }

  /** In a valid state an inner cell of the board is never a frame cell. */
  lemma FramedInner(g: Play, size: int, p: Position)
    requires ValidPlay(g, size) && InBoard(size, p) && IsInner(size + 2, p.row, p.col)
    ensures Shaped(g.board, size + 2) && g.board[p.row][p.col] != Frame
  {
    TracedShape(g.original, size, g.path);
    assert g.original[p.row][p.col] != Frame;
  }

  /** A restart forgets every accepted move: it gives the same state whether
      or not the move was made. */
  lemma RestartForgetsMove(g: Play, size: int, row: int, col: int)
    requires ValidPlay(g, size) && InBoard(size, Position(row, col)) && Accepted(g, size, Position(row, col))
    ensures Shaped(g.board, size + 2)
    ensures Restart(Click(g, size, row, col)) == Restart(g)
  {
    ClickCases(g, size, row, col);
  }

  /** Restarting brings back the original board untouched by the path, with
      the start kept and nothing walked. */
  lemma RestartValid(g: Play, size: int)
    requires ValidPlay(g, size)
    ensures ValidPlay(Restart(g), size)
    ensures Restart(g).board == Traced(g.original, size, []) && Restart(g).current == g.start
  {
    TracedEmpty(g.original, size);
  }

  /** Clicks preserve the invariant. */
  lemma ClickValid(g: Play, size: int, row: int, col: int)
    requires ValidPlay(g, size) && InBoard(size, Position(row, col))
    ensures Shaped(g.board, size + 2)
    ensures ValidPlay(Click(g, size, row, col), size)
  {
    var p := Position(row, col);
    ValidShaped(g, size);
    ClickCases(g, size, row, col);
    var r := Click(g, size, row, col);
    if Accepted(g, size, p) {
      ClickIsMove(g, size, p);
      MoveValid(g, size, p);
    } else if r != g {
      TracedEmpty(g.original, size);
    }
  }

  lemma DistinctSnoc<T>(s: seq<T>, x: T)
    requires Distinct(s) && x !in s
    ensures Distinct(s + [x])
  {
  }

  /** Undo preserves the invariant. */
  lemma UndoValid(g: Play, size: int)
    requires ValidPlay(g, size)
    ensures Shaped(g.board, size + 2)
    ensures ValidPlay(Undo(g, size), size)
  {
    ValidShaped(g, size);
    if |g.path| > 0 && !g.won {
      var n := |g.path| - 1;
      var init := g.path[..n];
      var last := g.path[n];
      assert g.path == init + [last];
      assert last !in init;
      TracedSnoc(g.original, size, init, last);
      TracedShape(g.original, size, init);
      var t := Traced(g.original, size, init);
      if IsInner(size + 2, last.row, last.col) {
        FlipAtShape(t, size + 2, last.row, last.col);
        FlipAtShape(g.board, size + 2, last.row, last.col);
        assert t[last.row][last.col] != Frame by {
          assert g.original[last.row][last.col] != Frame;
        }
        forall i, j | 0 <= i < size + 2 && 0 <= j < size + 2
          ensures FlipAt(g.board, last.row, last.col)[i][j] == t[i][j]
        {
          if i == last.row && j == last.col {
            ToggleTwice(t[i][j]);
          }
        }
        GridEq(FlipAt(g.board, last.row, last.col), t, size + 2);
      }
    }
  }

  // ---------------------------------------------------------------------------
  // `handleSizeChange`

  /** `Math.max(3, Math.min(8, newSize))`. */
  function Clamp(n: int): (r: int)
    ensures 3 <= r <= 8
    ensures 3 <= n <= 8 ==> r == n
    ensures n < 3 ==> r == 3
    ensures n > 8 ==> r == 8
  {
    if n < 3 then 3 else if n > 8 then 8 else n
  }
}
