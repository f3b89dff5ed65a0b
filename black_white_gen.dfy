/** Board generation of the Black & White game (`generateRandomPath` and
    `generateSolvableBoard` in src/components/games/BlackWhiteGame.tsx): a
    random walk from a frame cell through the inner cells, whose cells are
    flipped on an all-white board, followed by flipping some random rows.
    Clicking the walk's frame start and then the walk in its own order is a
    solution, which is what makes every generated board solvable. Randomness is a sequence of draws (module Random). */
module BlackWhiteGen {
  import opened Common
  import opened Random
  import opened BlackWhiteRules

  // ---------------------------------------------------------------------------
  // Where a walk may start

  /** A frame cell that is not a corner. */
  predicate FrameStart(size: int, p: Position)
  {
    InBoard(size, p) && IsFrame(size + 2, p.row, p.col)
    && !((p.row == 0 || p.row == size + 1) && (p.col == 0 || p.col == size + 1))
  }

  /** The `k`-th entry of `frameStarts`: for `i` from 1 to `size` the loop
      pushes the top, bottom, left and right cell of line `i`. */
  function StartAt(size: int, k: nat): Position
  {
    var i := k / 4 + 1;
    match k % 4
    case 0 => Position(0, i)
    case 1 => Position(size + 1, i)
    case 2 => Position(i, 0)
    case _ => Position(i, size + 1)
  }

  /** The `frameStarts` loop. */
  method FrameStarts(size: int) returns (frameStarts: seq<Position>)
    ensures |frameStarts| == if size > 0 then 4 * size else 0
    ensures forall k :: 0 <= k < |frameStarts| ==> frameStarts[k] == StartAt(size, k)
  {
    var total := size + 2;
    frameStarts := [];
    var i := 1;
    while i <= size
      invariant 1 <= i <= if size > 0 then size + 1 else 1
      invariant |frameStarts| == 4 * (i - 1)
      invariant forall k :: 0 <= k < |frameStarts| ==> frameStarts[k] == StartAt(size, k)
    {
      frameStarts := frameStarts + [Position(0, i)];
      frameStarts := frameStarts + [Position(total - 1, i)];
      frameStarts := frameStarts + [Position(i, 0)];
      frameStarts := frameStarts + [Position(i, total - 1)];
      i := i + 1;
    }
  }

  /** The list holds exactly the frame cells that are not corners. */
  lemma StartsAreFrameStarts(size: int)
    requires size > 0
    ensures forall k :: 0 <= k < 4 * size ==> FrameStart(size, StartAt(size, k))
    ensures forall p :: FrameStart(size, p) ==> exists k :: 0 <= k < 4 * size && StartAt(size, k) == p
  {
    forall p | FrameStart(size, p)
      ensures exists k :: 0 <= k < 4 * size && StartAt(size, k) == p
    {
      if p.row == 0 {
        assert StartAt(size, 4 * (p.col - 1)) == p;
      } else if p.row == size + 1 {
        assert StartAt(size, 4 * (p.col - 1) + 1) == p;
      } else if p.col == 0 {
        assert StartAt(size, 4 * (p.row - 1) + 2) == p;
      } else {
        assert StartAt(size, 4 * (p.row - 1) + 3) == p;
      }
    }
  }

  // ---------------------------------------------------------------------------
  // `getNeighbors`

  /** The four directions in the order of `dirs`: up, down, left, right. */
  function Steps(p: Position): seq<Position>
  {
    [Position(p.row - 1, p.col), Position(p.row + 1, p.col), Position(p.row, p.col - 1), Position(p.row, p.col + 1)]
  }

  /** The cells of `qs` that lie on the board, in order. */
  function KeepInBoard(size: int, qs: seq<Position>): seq<Position>
  {
    if qs == [] then []
    else KeepInBoard(size, qs[..|qs| - 1]) + if InBoard(size, qs[|qs| - 1]) then [qs[|qs| - 1]] else []
  }

  lemma {:induction false} KeepInBoardIn(size: int, qs: seq<Position>, q: Position)
    ensures q in KeepInBoard(size, qs) <==> q in qs && InBoard(size, q)
    decreases |qs|
  {
    if qs != [] {
      KeepInBoardIn(size, qs[..|qs| - 1], q);
      assert qs == qs[..|qs| - 1] + [qs[|qs| - 1]];
    }
  }

  function NotIn(visited: set<Position>): Position -> bool
  {
    n => n !in visited
  }

  function InnerOf(size: int): Position -> bool
  {
    (n: Position) => InnerCell(size, n.row, n.col)
  }

  function FrameOf(total: int): Position -> bool
  {
    (n: Position) => IsFrame(total, n.row, n.col)
  }

  /** The neighbours `getNeighbors` returns. */
  function Neighbors(size: int, p: Position): seq<Position>
  {
    KeepInBoard(size, Steps(p))
  }

  /** The neighbours are exactly the cells of the board adjacent to `p`. */
  lemma NeighborsIff(size: int, p: Position, q: Position)
    ensures q in Neighbors(size, p) <==> InBoard(size, q) && IsAdjacent(p, q)
  {
    var s := Steps(p);
    KeepInBoardIn(size, s, q);
    if InBoard(size, q) && IsAdjacent(p, q) {
      assert q == s[0] || q == s[1] || q == s[2] || q == s[3];
    }
  }

  /** `getNeighbors(row, col)`. */
  method GetNeighbors(size: int, p: Position) returns (neighbors: seq<Position>)
    ensures neighbors == Neighbors(size, p)
  {
    var total := size + 2;
    var dirs := [(-1, 0), (1, 0), (0, -1), (0, 1)];
    neighbors := [];
    var i := 0;
    while i < 4
      invariant 0 <= i <= 4
      invariant neighbors == KeepInBoard(size, Steps(p)[..i])
    {
      var (dr, dc) := dirs[i];
      var nr := p.row + dr;
      var nc := p.col + dc;
      assert Position(nr, nc) == Steps(p)[i];
      assert Steps(p)[..i + 1][..i] == Steps(p)[..i];
      if nr >= 0 && nr < total && nc >= 0 && nc < total {
        neighbors := neighbors + [Position(nr, nc)];
      }
      i := i + 1;
    }
    assert Steps(p)[..4] == Steps(p);
  }

  // ---------------------------------------------------------------------------
  // `generateRandomPath`

  /** `Math.max(3, Math.floor(size * size * 0.3))`. */
  function MinPathLength(size: int): (m: int)
    ensures m >= 3
  {
    var m := size * size * 3 / 10;
    if m > 3 then m else 3
  }

  /** A walk from frame cell `s` through distinct inner cells, each step to
      an adjacent cell. */
  predicate WalkFrom(size: int, s: Position, path: seq<Position>)
  {
    FrameStart(size, s)
    && (path != [] ==> IsAdjacent(s, path[0]))
    && (forall i :: 1 <= i < |path| ==> IsAdjacent(path[i - 1], path[i]))
    && (forall i :: 0 <= i < |path| ==> InnerCell(size, path[i].row, path[i].col))
    && Distinct(path)
  }

  /** What `generateRandomPath` returns: a walk of at least one and at most
      `size * size` inner cells, entered from a frame cell. */
  predicate WalkShape(size: int, s: Position, path: seq<Position>)
  {
    WalkFrom(size, s, path) && 1 <= |path| <= size * size
  }

  /** Every inner cell adjacent to the end of the walk is already on it. */
  ghost predicate Stuck(size: int, path: seq<Position>)
  {
    path != []
    && forall q: Position :: InnerCell(size, q.row, q.col) && IsAdjacent(path[|path| - 1], q) ==> q in path
  }

  lemma WalkSnoc(size: int, s: Position, path: seq<Position>, q: Position)
    requires WalkFrom(size, s, path) && InnerCell(size, q.row, q.col) && q !in path
    requires IsAdjacent(if path == [] then s else path[|path| - 1], q)
    ensures WalkFrom(size, s, path + [q])
  {
    var p := path + [q];
    assert forall i :: 0 <= i < |path| ==> p[i] == path[i];
  }

  /** The unvisited inner neighbours the walk chooses from. */
  function Candidates(size: int, current: Position, visited: set<Position>): seq<Position>
  {
    Filter(Filter(Neighbors(size, current), NotIn(visited)), InnerOf(size))
  }

  /** They are exactly the inner cells adjacent to `current` not yet visited. */
  lemma CandidatesIff(size: int, current: Position, visited: set<Position>, q: Position)
    ensures q in Candidates(size, current, visited) <==>
      InnerCell(size, q.row, q.col) && IsAdjacent(current, q) && q !in visited
  {
    var n := Neighbors(size, current);
    var u := Filter(n, NotIn(visited));
    NeighborsIff(size, current, q);
    if q in n && q !in visited {
      FilterHas(n, NotIn(visited), q);
      if InnerCell(size, q.row, q.col) {
        FilterHas(u, InnerOf(size), q);
      }
    }
  }

  lemma FilterHas<T>(s: seq<T>, p: T -> bool, x: T)
    requires x in s && p(x)
    ensures x in Filter(s, p)
  {
    var i :| 0 <= i < |s| && s[i] == x;
  }

  /** When no unvisited inner neighbour is left, the walk is stuck. */
  lemma NoCandidateStuck(size: int, s: Position, path: seq<Position>, visited: set<Position>)
    requires WalkFrom(size, s, path) && path != [] && visited == {s} + Elements(path)
    requires Candidates(size, path[|path| - 1], visited) == []
    ensures Stuck(size, path)
  {
    var last := path[|path| - 1];
    forall q: Position | InnerCell(size, q.row, q.col) && IsAdjacent(last, q)
      ensures q in path
    {
      CandidatesIff(size, last, visited, q);
      assert q in visited;
      assert q != s;
    }
  }

  /** One step of the walk: the chosen neighbour extends it. */
  lemma StepExtends(size: int, s: Position, path: seq<Position>, visited: set<Position>, current: Position,
                    q: Position)
    requires WalkFrom(size, s, path) && visited == {s} + Elements(path)
    requires current == if path == [] then s else path[|path| - 1]
    requires q in Candidates(size, current, visited)
    ensures WalkFrom(size, s, path + [q]) && visited + {q} == {s} + Elements(path + [q])
  {
    CandidatesIff(size, current, visited, q);
    WalkSnoc(size, s, path, q);
  }

  /** One round of the walk's loop: the next cell, or `None` where the loop
      breaks, and the next unread draw. An inner neighbour is taken while
      the walk is shorter than `minPathLength`; past it, a draw above 0.3
      also takes one, and otherwise an unvisited frame neighbour ends the
      walk. */
  method ChooseNext(size: int, current: Position, visited: set<Position>, innerCellsVisited: int,
                    minPathLength: int, rand: seq<nat>, pos: nat) returns (nxt: Option<Position>, next: nat)
    ensures nxt.Some? ==> nxt.value in Candidates(size, current, visited)
    ensures nxt.None? ==> Candidates(size, current, visited) == [] || innerCellsVisited >= minPathLength
    ensures next >= pos
  {
    var total := size + 2;
    next := pos;
    var neighbors := GetNeighbors(size, current);
    var unvisited := Filter(neighbors, NotIn(visited));
    if |unvisited| == 0 {
      return None, next;
    }
    var innerNeighbors := Filter(unvisited, InnerOf(size));
    var frameNeighbors := Filter(unvisited, FrameOf(total));
    var takeInner := false;
    if |innerNeighbors| > 0 {
      if innerCellsVisited < minPathLength {
        takeInner := true;
      } else {
        takeInner := Exceeds(DrawAt(rand, next), 3, 10);
        next := next + 1;
      }
    }
    if takeInner {
      nxt := Some(innerNeighbors[FloorTimes(DrawAt(rand, next), |innerNeighbors|)]);
      next := next + 1;
    } else if |frameNeighbors| > 0 && innerCellsVisited >= minPathLength {
      nxt := None;
    } else if |innerNeighbors| > 0 {
      nxt := Some(innerNeighbors[FloorTimes(DrawAt(rand, next), |innerNeighbors|)]);
      next := next + 1;
    } else {
      nxt := None;
    }
  }

  /** `generateRandomPath(size)`: the walk, and the next unread draw. It
      stops short of `minPathLength` inner cells only when it covered the
      whole board or has no unvisited inner neighbour left. */
  method GenerateRandomPath(size: int, rand: seq<nat>, pos: nat) returns (path: seq<Position>, next: nat)
    requires size >= 1
    ensures exists s :: WalkShape(size, s, path)
    ensures |path| >= MinPathLength(size) || |path| == size * size || Stuck(size, path)
    ensures next > pos
  {
    var frameStarts := FrameStarts(size);
    var start := frameStarts[FloorTimes(DrawAt(rand, pos), |frameStarts|)];
    StartsAreFrameStarts(size);
    next := pos + 1;
    var visited: set<Position> := {start};
    path := [];
    var current := start;
    var minPathLength := MinPathLength(size);
    var maxPathLength := size * size;
    var innerCellsVisited := 0;
    while innerCellsVisited < maxPathLength
      invariant innerCellsVisited == |path| <= maxPathLength
      invariant WalkFrom(size, start, path) && visited == {start} + Elements(path)
      invariant current == if path == [] then start else path[|path| - 1]
      invariant next > pos
      decreases maxPathLength - innerCellsVisited
    {
      if path == [] {
        FirstStep(size, start);
      }
      var nxt;
      nxt, next := ChooseNext(size, current, visited, innerCellsVisited, minPathLength, rand, next);
      if nxt.None? {
        if innerCellsVisited < minPathLength {
          NoCandidateStuck(size, start, path, visited);
        }
        break;
      }
      StepExtends(size, start, path, visited, current, nxt.value);
      innerCellsVisited := innerCellsVisited + 1;
      path := path + [nxt.value];
      visited := visited + {nxt.value};
      current := nxt.value;
    }
    assert WalkShape(size, start, path);
  }

  /** The first round always finds a cell: the start's inward neighbour. */
  lemma FirstStep(size: int, start: Position)
    requires size >= 1 && FrameStart(size, start)
    ensures Candidates(size, start, {start}) != [] && 0 < MinPathLength(size)
  {
    var q := Inward(size, start);
    CandidatesIff(size, start, {start}, q);
  }

  /** The inner cell next to a frame start. */
  function Inward(size: int, start: Position): (q: Position)
    requires size >= 1 && FrameStart(size, start)
    ensures InnerCell(size, q.row, q.col) && IsAdjacent(start, q) && q != start
  {
    if start.row == 0 then Position(1, start.col)
    else if start.row == size + 1 then Position(size, start.col)
    else if start.col == 0 then Position(start.row, 1)
    else Position(start.row, size)
  }

  // ---------------------------------------------------------------------------
  // `generateSolvableBoard`

  /** Cell `(r, c)` of the generated board: the frame on the ring; inside,
      black exactly when one, but not both, of "on the walk" and "in a
      flipped row" holds. */
  function CellAfter(size: int, path: seq<Position>, rows: seq<int>, r: int, c: int): Cell
  {
    if IsFrame(size + 2, r, c) then Frame
    else if (Position(r, c) in path) != (r in rows) then Black
    else White
  }

  /** The whole generated board. */
  function GenBoard(size: int, path: seq<Position>, rows: seq<int>): Grid
    requires size >= 0
  {
    seq(size + 2, r requires 0 <= r < size + 2 => seq(size + 2, c requires 0 <= c < size + 2 => CellAfter(size, path, rows, r, c)))
  }

  /** The contents of the two-dimensional buffer, row by row. */
  function Rows(a: array2<Cell>): Grid
    reads a
  {
    seq(a.Length0, r requires 0 <= r < a.Length0 reads a => seq(a.Length1, c requires 0 <= c < a.Length1 reads a => a[r, c]))
  }

  /** The loop that fills an all-white board inside a frame. */
  method InitBoard(a: array2<Cell>, size: int)
    requires size >= 0 && a.Length0 == size + 2 && a.Length1 == size + 2
    modifies a
    ensures forall r, c :: 0 <= r < size + 2 && 0 <= c < size + 2 ==> a[r, c] == CellAfter(size, [], [], r, c)
  {
    var total := size + 2;
    var row := 0;
    while row < total
      invariant 0 <= row <= total
      invariant forall r, c :: 0 <= r < row && 0 <= c < total ==> a[r, c] == CellAfter(size, [], [], r, c)
    {
      var col := 0;
      while col < total
        invariant 0 <= col <= total
        invariant forall r, c :: 0 <= r < row && 0 <= c < total ==> a[r, c] == CellAfter(size, [], [], r, c)
        invariant forall c :: 0 <= c < col ==> a[row, c] == CellAfter(size, [], [], row, c)
      {
        if row == 0 || row == total - 1 || col == 0 || col == total - 1 {
          a[row, col] := Frame;
        } else {
          a[row, col] := White;
        }
        col := col + 1;
      }
      row := row + 1;
    }
  }

  /** The loop that flips every inner cell of the walk. */
  method FlipPath(a: array2<Cell>, size: int, path: seq<Position>)
    requires size >= 0 && a.Length0 == size + 2 && a.Length1 == size + 2
    requires Distinct(path) && forall i :: 0 <= i < |path| ==> InnerCell(size, path[i].row, path[i].col)
    requires forall r, c :: 0 <= r < size + 2 && 0 <= c < size + 2 ==> a[r, c] == CellAfter(size, [], [], r, c)
    modifies a
    ensures forall r, c :: 0 <= r < size + 2 && 0 <= c < size + 2 ==> a[r, c] == CellAfter(size, path, [], r, c)
  {
    var i := 0;
    while i < |path|
      invariant 0 <= i <= |path|
      invariant forall r, c :: 0 <= r < size + 2 && 0 <= c < size + 2 ==> a[r, c] == CellAfter(size, path[..i], [], r, c)
    {
      var p := path[i];
      assert p !in path[..i];
      assert path[..i + 1] == path[..i] + [p];
      if p.row >= 1 && p.row <= size && p.col >= 1 && p.col <= size {
        a[p.row, p.col] := if a[p.row, p.col] == White then Black else White;
      }
      i := i + 1;
    }
    assert path[..i] == path;
  }

  /** `1 + Math.floor(Math.random() * size)` on draw `k`. */
  function RowAt(size: int, rand: seq<nat>, k: nat): int
  {
    1 + FloorTimes(DrawAt(rand, k), if size > 0 then size else 0)
  }

  /** `rowsToFlip.add(row)`: a JavaScript `Set` keeps its elements in
      insertion order and ignores a repeated one. */
  function AddRow(rows: seq<int>, row: int): seq<int>
  {
    if row in rows then rows else rows + [row]
  }

  /** The set after adding the rows drawn at positions `pos` to `next - 1`. */
  function RowsDrawn(size: int, rand: seq<nat>, pos: nat, next: nat): (rows: seq<int>)
    decreases next
  {
    if next <= pos then [] else AddRow(RowsDrawn(size, rand, pos, next - 1), RowAt(size, rand, next - 1))
  }

  /** The rows drawn are distinct, lie inside the board, and are exactly the
      rows of the draws read. */
  lemma {:induction false} RowsDrawnSound(size: int, rand: seq<nat>, pos: nat, next: nat)
    requires size >= 1
    ensures Distinct(RowsDrawn(size, rand, pos, next))
    ensures forall i :: 0 <= i < |RowsDrawn(size, rand, pos, next)| ==> 1 <= RowsDrawn(size, rand, pos, next)[i] <= size
    ensures forall r :: r in RowsDrawn(size, rand, pos, next) <==> exists k :: pos <= k < next && RowAt(size, rand, k) == r
    decreases next
  {
    if next > pos {
      var prev := RowsDrawn(size, rand, pos, next - 1);
      RowsDrawnSound(size, rand, pos, next - 1);
      var row := RowAt(size, rand, next - 1);
      forall r
        ensures r in RowsDrawn(size, rand, pos, next) <==> exists k :: pos <= k < next && RowAt(size, rand, k) == r
      {
        if r in prev {
          var k :| pos <= k < next - 1 && RowAt(size, rand, k) == r;
          assert pos <= k < next && RowAt(size, rand, k) == r;
        }
      }
    }
  }

  /** The loop that collects `numRowsToFlip` distinct rows. It stops when
      the supplied draws are used up. */
  method DrawRows(size: int, numRowsToFlip: nat, rand: seq<nat>, pos: nat) returns (rowsToFlip: seq<int>, next: nat)
    requires size >= 1
    ensures next >= pos && rowsToFlip == RowsDrawn(size, rand, pos, next)
    ensures |rowsToFlip| == numRowsToFlip || (next >= |rand| && |rowsToFlip| < numRowsToFlip)
    ensures forall m :: pos <= m < next ==> |RowsDrawn(size, rand, pos, m)| < numRowsToFlip
  {
    rowsToFlip := [];
    next := pos;
    while |rowsToFlip| < numRowsToFlip && next < |rand|
      invariant pos <= next
      invariant rowsToFlip == RowsDrawn(size, rand, pos, next)
      invariant |rowsToFlip| <= numRowsToFlip
      invariant forall m :: pos <= m < next ==> |RowsDrawn(size, rand, pos, m)| < numRowsToFlip
      decreases |rand| - next
    {
      var row := 1 + FloorTimes(DrawAt(rand, next), size);
      if row !in rowsToFlip {
        rowsToFlip := rowsToFlip + [row];
      }
      next := next + 1;
    }
  }

  /** The inner loop that flips the inner cells of one row. */
  method FlipRow(a: array2<Cell>, size: int, row: int)
    requires size >= 0 && a.Length0 == size + 2 && a.Length1 == size + 2 && 1 <= row <= size
    modifies a
    ensures forall r, c :: 0 <= r < size + 2 && 0 <= c < size + 2 ==>
      a[r, c] == if r == row && 1 <= c <= size then (if old(a[r, c]) == White then Black else White) else old(a[r, c])
  {
    var col := 1;
    while col <= size
      invariant 1 <= col <= size + 1
      invariant forall r, c :: 0 <= r < size + 2 && 0 <= c < size + 2 ==>
        a[r, c] == if r == row && 1 <= c < col then (if old(a[r, c]) == White then Black else White) else old(a[r, c])
    {
      a[row, col] := if a[row, col] == White then Black else White;
      col := col + 1;
    }
  }

  /** The loop over `rowsToFlip`; the rows are distinct. */
  method FlipRows(a: array2<Cell>, size: int, path: seq<Position>, rowsToFlip: seq<int>)
    requires size >= 0 && a.Length0 == size + 2 && a.Length1 == size + 2
    requires Distinct(rowsToFlip) && forall i :: 0 <= i < |rowsToFlip| ==> 1 <= rowsToFlip[i] <= size
    requires forall r, c :: 0 <= r < size + 2 && 0 <= c < size + 2 ==> a[r, c] == CellAfter(size, path, [], r, c)
    modifies a
    ensures forall r, c :: 0 <= r < size + 2 && 0 <= c < size + 2 ==> a[r, c] == CellAfter(size, path, rowsToFlip, r, c)
  {
    var i := 0;
    while i < |rowsToFlip|
      invariant 0 <= i <= |rowsToFlip|
      invariant forall r, c :: 0 <= r < size + 2 && 0 <= c < size + 2 ==> a[r, c] == CellAfter(size, path, rowsToFlip[..i], r, c)
    {
      var row := rowsToFlip[i];
      assert row !in rowsToFlip[..i];
      assert rowsToFlip[..i + 1] == rowsToFlip[..i] + [row];
      FlipRow(a, size, row);
      i := i + 1;
    }
    assert rowsToFlip[..i] == rowsToFlip;
  }

  lemma RowsAreGenBoard(a: array2<Cell>, size: int, path: seq<Position>, rows: seq<int>)
    requires size >= 0 && a.Length0 == size + 2 && a.Length1 == size + 2
    requires forall r, c :: 0 <= r < size + 2 && 0 <= c < size + 2 ==> a[r, c] == CellAfter(size, path, rows, r, c)
    ensures Rows(a) == GenBoard(size, path, rows)
  {
    GridEq(Rows(a), GenBoard(size, path, rows), size + 2);
  }

  /** What a generation produces: a board made of a walk and a set of flipped
      rows, and the message naming the walk's length. */
  ghost predicate Generated(size: int, board: Grid, info: string, path: seq<Position>, rows: seq<int>)
    requires size >= 0
  {
    (exists s :: WalkShape(size, s, path))
    && Distinct(rows) && (forall i :: 0 <= i < |rows| ==> 1 <= rows[i] <= size)
    && board == GenBoard(size, path, rows)
    && info == "Generated puzzle with path length " + NatToString(|path|)
  }

  /** `generateSolvableBoard(size)`: the board, the `genInfo` message, and
      the next unread draw. */
  method GenerateSolvableBoard(size: int, rand: seq<nat>, pos: nat) returns (board: Grid, info: string, next: nat)
    requires size >= 1
    ensures exists path, rows :: Generated(size, board, info, path, rows)
    ensures next > pos
  {
    var total := size + 2;
    var a := new Cell[total, total];
    InitBoard(a, size);
    var pathCells;
    pathCells, next := GenerateRandomPath(size, rand, pos);
    FlipPath(a, size, pathCells);
    var numRowsToFlip := FloorTimes(DrawAt(rand, next), size);
    ghost var next0 := next;
    var rowsToFlip;
    rowsToFlip, next := DrawRows(size, numRowsToFlip, rand, next + 1);
    RowsDrawnSound(size, rand, next0 + 1, next);
    FlipRows(a, size, pathCells, rowsToFlip);
    info := "Generated puzzle with path length " + NatToString(|pathCells|);
    board := Rows(a);
    RowsAreGenBoard(a, size, pathCells, rowsToFlip);
    assert Generated(size, board, info, pathCells, rowsToFlip);
  }

  // ---------------------------------------------------------------------------
  // Every generated board is solvable

  lemma GenBoardValid(size: int, path: seq<Position>, rows: seq<int>)
    requires size >= 1
    ensures Shaped(GenBoard(size, path, rows), size + 2) && Framed(GenBoard(size, path, rows), size)
    ensures ValidPlay(Fresh(GenBoard(size, path, rows)), size)
  {
    FreshValid(GenBoard(size, path, rows), size);
  }

  /** The clicks `clicks` one after the other. */
  ghost function Replay(g: Play, size: int, clicks: seq<Position>): (r: Play)
    requires ValidPlay(g, size) && forall i :: 0 <= i < |clicks| ==> InBoard(size, clicks[i])
    ensures ValidPlay(r, size)
    decreases |clicks|
  {
    if clicks == [] then g
    else
      ClickValid(g, size, clicks[0].row, clicks[0].col);
      Replay(Click(g, size, clicks[0].row, clicks[0].col), size, clicks[1..])
  }

  /** The state after the start click and `k` moves of the walk, or a game
      already won. */
  ghost predicate Walked(g: Play, size: int, b: Grid, s: Position, path: seq<Position>, k: nat)
  {
    k <= |path| && ValidPlay(g, size) && g.original == b && g.start == Some(s)
    && (g.won || g.path == path[..k])
    && (k >= 1 ==> Shaped(g.board, size + 2) && g.won == Won(g.board, size))
  }

  /** Along the walk the next cell is always an acceptable move. */
  lemma WalkAccepts(g: Play, size: int, b: Grid, s: Position, path: seq<Position>, k: nat)
    requires WalkShape(size, s, path) && Walked(g, size, b, s, path, k) && k < |path| && !g.won
    ensures InBoard(size, path[k]) && Accepted(g, size, path[k])
  {
    var p := path[k];
    assert g.path == path[..k];
    assert p !in path[..k];
    assert k >= 1 ==> path[..k][k - 1] == path[k - 1];
  }

  /** One more move along the walk keeps the state walked or won. */
  lemma WalkedStep(g: Play, size: int, b: Grid, s: Position, path: seq<Position>, k: nat)
    requires WalkShape(size, s, path) && Walked(g, size, b, s, path, k) && k < |path|
    ensures InBoard(size, path[k]) && Shaped(g.board, size + 2)
    ensures Walked(Click(g, size, path[k].row, path[k].col), size, b, s, path, k + 1)
  {
    var p := path[k];
    ValidShaped(g, size);
    if !g.won {
      WalkAccepts(g, size, b, s, path, k);
      ClickIsMove(g, size, p);
      MoveWalked(g, size, b, s, path, k);
    }
  }

  lemma MoveWalked(g: Play, size: int, b: Grid, s: Position, path: seq<Position>, k: nat)
    requires WalkShape(size, s, path) && Walked(g, size, b, s, path, k) && k < |path| && !g.won
    requires InBoard(size, path[k]) && Accepted(g, size, path[k])
    ensures Shaped(g.board, size + 2)
    ensures Walked(Move(g, size, path[k]), size, b, s, path, k + 1)
  {
    var p := path[k];
    MoveValid(g, size, p);
    var h := Move(g, size, p);
    ValidShaped(h, size);
    assert h.path == path[..k + 1] by {
      assert path[..k] + [p] == path[..k + 1];
    }
  }

  /** After the whole walk only the flipped rows are black, so every row
      has one colour. */
  lemma WalkedBoardWins(size: int, path: seq<Position>, rows: seq<int>)
    requires size >= 1
    ensures Shaped(GenBoard(size, path, rows), size + 2)
    ensures Shaped(Traced(GenBoard(size, path, rows), size, path), size + 2)
    ensures Won(Traced(GenBoard(size, path, rows), size, path), size)
  {
    var b := GenBoard(size, path, rows);
    TracedShape(b, size, path);
    var t := Traced(b, size, path);
    assert forall r, c :: 1 <= r <= size && 1 <= c <= size ==> t[r][c] == if r in rows then Black else White;
    assert RowsUniform(t, size);
  }

  /** A state that has walked the whole path is won. */
  lemma WalkedAll(g: Play, size: int, b: Grid, s: Position, path: seq<Position>)
    requires size >= 1 && Shaped(b, size + 2) && Won(Traced(b, size, path), size)
    requires WalkShape(size, s, path) && Walked(g, size, b, s, path, |path|)
    ensures g.won
  {
    assert path[..|path|] == path;
  }

  /** Walking the rest of the path from a walked state wins, on a board
      that the whole walk makes uniform. */
  lemma {:induction false} WalkWins(g: Play, size: int, b: Grid, s: Position, path: seq<Position>, k: nat)
    requires size >= 1 && Shaped(b, size + 2) && Won(Traced(b, size, path), size)
    requires WalkShape(size, s, path) && Walked(g, size, b, s, path, k)
    ensures forall i :: k <= i < |path| ==> InBoard(size, path[i])
    ensures Replay(g, size, path[k..]).won
    decreases |path| - k
  {
    if k == |path| {
      assert path[k..] == [];
      WalkedAll(g, size, b, s, path);
    } else {
      WalkedStep(g, size, b, s, path, k);
      var h := Click(g, size, path[k].row, path[k].col);
      WalkWins(h, size, b, s, path, k + 1);
      assert path[k..][0] == path[k] && path[k..][1..] == path[k + 1..];
    }
  }

  /** Every generated board is solvable: placing the start on the walk's
      frame cell and then clicking the walk's cells in order wins the game. */
  lemma GeneratedSolvable(size: int, s: Position, path: seq<Position>, rows: seq<int>)
    requires size >= 1 && WalkShape(size, s, path)
    ensures ValidPlay(Fresh(GenBoard(size, path, rows)), size)
    ensures forall i :: 0 <= i < |[s] + path| ==> InBoard(size, ([s] + path)[i])
    ensures Replay(Fresh(GenBoard(size, path, rows)), size, [s] + path).won
  {
    var b := GenBoard(size, path, rows);
    GenBoardValid(size, path, rows);
    var f := Fresh(b);
    ValidShaped(f, size);
    ClickValid(f, size, s.row, s.col);
    var g := Click(f, size, s.row, s.col);
    assert path[..0] == [];
    assert Walked(g, size, b, s, path, 0);
    WalkedBoardWins(size, path, rows);
    WalkWins(g, size, b, s, path, 0);
    assert ([s] + path)[0] == s && ([s] + path)[1..] == path && path[0..] == path;
  }

  /** Some sequence of clicks on the board wins the game from `g`. */
  ghost predicate Solvable(g: Play, size: int)
  {
    ValidPlay(g, size)
    && exists clicks: seq<Position> :: (forall i :: 0 <= i < |clicks| ==> InBoard(size, clicks[i]))
                                       && Replay(g, size, clicks).won
  }

  /** The same for a board as `generateSolvableBoard` returns it. */
  lemma GeneratedBoardSolvable(size: int, board: Grid, info: string, p: seq<Position>, rows: seq<int>)
    requires size >= 1 && Generated(size, board, info, p, rows)
    ensures Shaped(board, size + 2) && Solvable(Fresh(board), size)
  {
    var s :| WalkShape(size, s, p);
    GeneratedSolvable(size, s, p, rows);
    assert Replay(Fresh(board), size, [s] + p).won;
  }
}
