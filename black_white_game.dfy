/** The Black & White game component (src/components/games/BlackWhiteGame.tsx)
    as an object: its React state variables are the fields and every event
    handler is a method that updates them. Each method is specified by the
    value-level transition of module BlackWhiteRules, where the game's
    properties are proved. */
module BlackWhiteGame {
  import opened Common
  import opened BlackWhiteRules
  import opened BlackWhiteGen

  class Game {
    var boardSize: int
    var board: Grid
    var originalBoard: Grid
    var path: seq<Position>
    var currentPos: Option<Position>
    var startPos: Option<Position>
    var gameWon: bool
    var generating: bool
    var genInfo: string

    function State(): Play
      reads this
    {
      Play(board, originalBoard, path, currentPos, startPos, gameWon, generating)
    }

    ghost predicate Valid()
      reads this
    {
      ValidPlay(State(), boardSize) && Shaped(board, boardSize + 2)
    }

    /** The `useState` initial values, before the first board is generated. */
    constructor(initialSize: int)
      ensures boardSize == initialSize && genInfo == ""
      ensures State() == Play([], [], [], None, None, false, false)
    {
      boardSize := initialSize;
      board := [];
      originalBoard := [];
      path := [];
      currentPos := None;
      startPos := None;
      gameWon := false;
      generating := false;
      genInfo := "";
    }

    /** `isInPath(row, col)`. */
    predicate IsInPath(row: int, col: int)
      reads this
    {
      exists i :: 0 <= i < |path| && path[i].row == row && path[i].col == col
    }

    /** `checkWin(boardState)`: first every column, then every row is
        scanned, each scan stopping at the first cell that differs. */
    method CheckWin(boardState: Grid) returns (won: bool)
      requires boardSize >= 1 && Shaped(boardState, boardSize + 2)
      ensures won == Won(boardState, boardSize)
    {
      var allColumnsSingleColor := true;
      var col := 1;
      while col <= boardSize
        invariant 1 <= col <= boardSize + 1
        invariant allColumnsSingleColor
        invariant forall c, r :: 1 <= c < col && 2 <= r <= boardSize ==> boardState[r][c] == boardState[1][c]
      {
        var firstColor := boardState[1][col];
        var row := 2;
        while row <= boardSize
          invariant 2 <= row <= boardSize + 1
          invariant allColumnsSingleColor
          invariant forall r :: 2 <= r < row ==> boardState[r][col] == firstColor
        {
          if boardState[row][col] != firstColor {
            allColumnsSingleColor := false;
            assert !ColumnsUniform(boardState, boardSize);
            break;
          }
          row := row + 1;
        }
        if !allColumnsSingleColor {
          break;
        }
        col := col + 1;
      }
      assert allColumnsSingleColor == ColumnsUniform(boardState, boardSize);

      var allRowsSingleColor := true;
      var row := 1;
      while row <= boardSize
        invariant 1 <= row <= boardSize + 1
        invariant allRowsSingleColor
        invariant forall r, c :: 1 <= r < row && 2 <= c <= boardSize ==> boardState[r][c] == boardState[r][1]
      {
        var firstColor := boardState[row][1];
        var col := 2;
        while col <= boardSize
          invariant 2 <= col <= boardSize + 1
          invariant allRowsSingleColor
          invariant forall c :: 2 <= c < col ==> boardState[row][c] == firstColor
        {
          if boardState[row][col] != firstColor {
            allRowsSingleColor := false;
            assert !RowsUniform(boardState, boardSize);
            break;
          }
          col := col + 1;
        }
        if !allRowsSingleColor {
          break;
        }
        row := row + 1;
      }
      assert allRowsSingleColor == RowsUniform(boardState, boardSize);

      won := allColumnsSingleColor || allRowsSingleColor;
    }

    /** `generateNewBoard`: a generated board, kept also as the original, with
        no start and nothing walked. The board is solvable. */
    method GenerateNewBoard(rand: seq<nat>, pos: nat) returns (next: nat)
      requires boardSize >= 1
      modifies this
      ensures boardSize == old(boardSize)
      ensures State() == Fresh(board)
      ensures exists p, rows :: Generated(boardSize, board, genInfo, p, rows)
      ensures Valid() && Solvable(State(), boardSize)
      ensures next > pos
    {
      generating := true;
      genInfo := "";
      var newBoard, info;
      newBoard, info, next := GenerateSolvableBoard(boardSize, rand, pos);
      ghost var p, rows :| Generated(boardSize, newBoard, info, p, rows);
      GeneratedBoardSolvable(boardSize, newBoard, info, p, rows);
      Install(newBoard, info);
      assert Generated(boardSize, board, genInfo, p, rows);
    }

    /** The state updates of `generateNewBoard` once the board is made. */
    method Install(newBoard: Grid, info: string)
      modifies this
      ensures boardSize == old(boardSize) && genInfo == info
      ensures State() == Fresh(newBoard) && board == newBoard
    {
      genInfo := info;
      board := newBoard;
      originalBoard := newBoard;
      path := [];
      currentPos := None;
      startPos := None;
      gameWon := false;
      generating := false;
    }

    /** `handleCellClick(row, col)`, on a cell of the rendered board. */
    method HandleCellClick(row: int, col: int)
      requires Valid() && InBoard(boardSize, Position(row, col))
      modifies this
      ensures boardSize == old(boardSize) && genInfo == old(genInfo)
      ensures State() == Click(old(State()), boardSize, row, col)
      ensures Valid()
    {
      ghost var g := State();
      if gameWon || generating {
        return;
      }
      if startPos.None? && IsFrame(boardSize + 2, row, col) {
        ClickValid(g, boardSize, row, col);
        SetStart(Position(row, col), true);
        return;
      }
      if IsFrame(boardSize + 2, row, col) && |path| == 0 {
        ClickValid(g, boardSize, row, col);
        SetStart(Position(row, col), false);
        return;
      }
      if currentPos.Some? {
        var targetPos := Position(row, col);
        assert IsInPath(row, col) <==> targetPos in path;
        if IsAdjacent(currentPos.value, targetPos) && !IsInPath(row, col) {
          if startPos.Some? && startPos.value.row == row && startPos.value.col == col {
            return;
          }
          ClickIsMove(g, boardSize, targetPos);
          MoveValid(g, boardSize, targetPos);
          MoveTo(targetPos);
          ValidShaped(State(), boardSize);
        }
      }
    }

    /** A click that (re)places the start: the original board comes back,
        and the first branch also clears the path. */
    method SetStart(p: Position, clearPath: bool)
      modifies this
      ensures boardSize == old(boardSize) && genInfo == old(genInfo)
      ensures State() == old(State()).(start := Some(p), current := Some(p), board := old(originalBoard),
                                       path := if clearPath then [] else old(path))
    {
      startPos := Some(p);
      currentPos := Some(p);
      if clearPath {
        path := [];
      }
      board := originalBoard;
    }

    /** The accepted move of `handleCellClick`: the copied board with the
        target toggled when inner, the extended path, and the win check. */
    method MoveTo(targetPos: Position)
      requires boardSize >= 1 && Shaped(board, boardSize + 2) && InBoard(boardSize, targetPos)
      modifies this
      ensures boardSize == old(boardSize) && genInfo == old(genInfo)
      ensures State() == Move(old(State()), boardSize, targetPos)
    {
      var row, col := targetPos.row, targetPos.col;
      var newBoard := board;
      if IsInner(boardSize + 2, row, col) {
        newBoard := newBoard[row := newBoard[row][col := if newBoard[row][col] == Black then White else Black]];
      }
      FlipAtShape(board, boardSize + 2, row, col);
      var newPath := path + [targetPos];
      board := newBoard;
      path := newPath;
      currentPos := Some(targetPos);
      var won := CheckWin(newBoard);
      if won {
        gameWon := true;
      }
    }

    /** `restart`: the original board, nothing walked, back at the start. */
    method Restart()
      requires Valid()
      modifies this
      ensures boardSize == old(boardSize) && genInfo == old(genInfo)
      ensures State() == BlackWhiteRules.Restart(old(State()))
      ensures Valid()
    {
      RestartValid(State(), boardSize);
      board := originalBoard;
      path := [];
      currentPos := startPos;
      gameWon := false;
      TracedEmpty(originalBoard, boardSize);
    }

    /** `undoMove`: takes back the last move unless the game is won. */
    method UndoMove()
      requires Valid()
      modifies this
      ensures boardSize == old(boardSize) && genInfo == old(genInfo)
      ensures State() == Undo(old(State()), boardSize)
      ensures Valid()
    {
      ghost var g := State();
      UndoValid(g, boardSize);
      if |path| > 0 && !gameWon {
        var newPath := path[..|path| - 1];
        var lastPos := path[|path| - 1];
        var newBoard := board;
        if IsInner(boardSize + 2, lastPos.row, lastPos.col) {
          newBoard := newBoard[lastPos.row := newBoard[lastPos.row][lastPos.col :=
                        if newBoard[lastPos.row][lastPos.col] == Black then White else Black]];
        }
        board := newBoard;
        path := newPath;
        currentPos := if |newPath| > 0 then Some(newPath[|newPath| - 1]) else startPos;
        ValidShaped(Undo(g, boardSize), boardSize);
      }
    }

    /** `handleSizeChange(newSize)` together with the effect that generates a
        new board whenever the size changes. */
    method HandleSizeChange(newSize: int, rand: seq<nat>, pos: nat) returns (next: nat)
      modifies this
      ensures boardSize == Clamp(newSize)
      ensures Clamp(newSize) == old(boardSize) ==> State() == old(State()) && genInfo == old(genInfo) && next == pos
      ensures Clamp(newSize) != old(boardSize) ==>
        State() == Fresh(board) && Valid() && (exists p, rows :: Generated(boardSize, board, genInfo, p, rows))
        && next > pos
    {
      var clampedSize := if 3 > (if 8 < newSize then 8 else newSize) then 3 else if 8 < newSize then 8 else newSize;
      next := pos;
      if clampedSize != boardSize {
        boardSize := clampedSize;
        next := GenerateNewBoard(rand, pos);
      }
    }
  }
}
