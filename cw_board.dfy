/** The state of a Connect Words game as values, and the transitions the
    component performs on it (src/components/games/ConnectWordsGame.tsx).
    Tiles are grouped into numbered clusters; two clusters merge when all of
    their tiles belong to the same puzzle group, and a cluster that reaches
    the group size is taken off the board as a solved group. */
module ConnectWordsBoard {
  import opened Common
  import opened Puzzles
  import opened SavedGames
  import opened FisherYates

  /** Everything the component keeps in state that a move changes, except
      the selection and the message (see `Play`). A colour that would be
      stored as `undefined` is stored as an absent key: every read treats the
      two alike. */
  datatype Board = Board(
    grid: seq<GridCell>,
    clusters: map<int, seq<int>>,
    colors: map<int, Color>,
    solved: seq<SolvedGroup>,
    nextClusterId: int,
    nextColorIndex: int)

  /** `generateColor(index)`: the hue `index * 137.5 mod 360`, kept symbolic. */
  function GenerateColor(index: int): Color
  {
    ClusterHue(index)
  }

  /** `clusterColors[k]`, `undefined` being `None`. */
  function Lookup(m: map<int, Color>, k: int): Option<Color>
  {
    if k in m then Some(m[k]) else None
  }

  /** `m[k] = c`, where assigning `undefined` leaves no readable colour. */
  function SetColor(m: map<int, Color>, k: int, c: Option<Color>): map<int, Color>
  {
    if c.Some? then m[k := c.value] else m - {k}
  }

  // ---------------------------------------------------------------------------
  // A fresh board (the initialisation effect and `handleReset`)

  function Tile(w: ShuffledWord, idx: int): GridCell
  {
    GridCell(w.word, w.groupIndex, w.groupName, w.color, idx, idx, false)
  }

  /** `words.map((w, idx) => ({...w, clusterId: idx, cellIndex: idx}))`. */
  function FreshGrid(words: seq<ShuffledWord>): seq<GridCell>
  {
    seq(|words|, i requires 0 <= i < |words| => Tile(words[i], i))
  }

  /** `initialClusters[idx] = [idx]` for every tile. */
  function Singletons(n: nat): map<int, seq<int>>
  {
    map i | 0 <= i < n :: [i]
  }

  function FreshBoard(words: seq<ShuffledWord>): Board
  {
    Board(FreshGrid(words), Singletons(|words|), map[], [], |words|, 0)
  }

  // ---------------------------------------------------------------------------
  // The invariant

  predicate InRange(b: Board, idx: seq<int>)
  {
    forall j :: 0 <= j < |idx| ==> 0 <= idx[j] < |b.grid|
  }

  /** A cluster: a non-empty list of distinct tiles that name it, are not
      solved, and share the group of its first tile. */
  predicate ClusterOk(b: Board, k: int)
    requires k in b.clusters
  {
    var idx := b.clusters[k];
    idx != [] && InRange(b, idx) && Distinct(idx)
    && forall j :: 0 <= j < |idx| ==>
         b.grid[idx[j]].clusterId == k && !b.grid[idx[j]].solved
         && b.grid[idx[j]].groupIndex == b.grid[idx[0]].groupIndex
  }

  /** The invariant every move keeps: tile `i` sits at position `i`; every
      cluster id is below `nextClusterId`; every unsolved tile lies in the
      cluster its `clusterId` names; and exactly the clusters of more than
      one tile have a colour. */
  predicate ValidBoard(b: Board)
  {
    (forall i :: 0 <= i < |b.grid| ==> b.grid[i].cellIndex == i)
    && (forall k :: k in b.clusters ==> 0 <= k < b.nextClusterId && ClusterOk(b, k))
    && (forall i :: 0 <= i < |b.grid| && !b.grid[i].solved ==>
          b.grid[i].clusterId in b.clusters && i in b.clusters[b.grid[i].clusterId])
    && (forall k :: k in b.colors ==> k in b.clusters && |b.clusters[k]| > 1)
    && (forall k :: k in b.clusters && |b.clusters[k]| > 1 ==> k in b.colors)
  }

  /** Every tile names a group of the puzzle. */
  predicate TilesOf(b: Board, p: Puzzle)
  {
    forall i :: 0 <= i < |b.grid| ==> b.grid[i].groupIndex < |p.groups|
  }

  // ---------------------------------------------------------------------------
  // mergeClusters

  /** What `mergeClusters` needs not to throw: both clusters exist, their
      tiles exist, and there is a first tile. */
  predicate MergeReady(b: Board, c1: int, c2: int)
  {
    c1 in b.clusters && c2 in b.clusters
    && InRange(b, b.clusters[c1]) && InRange(b, b.clusters[c2])
    && |b.clusters[c1]| + |b.clusters[c2]| > 0
  }

  /** `cluster1Indices.concat(cluster2Indices)`. */
  function MergedIndices(b: Board, c1: int, c2: int): seq<int>
    requires c1 in b.clusters && c2 in b.clusters
  {
    b.clusters[c1] + b.clusters[c2]
  }

  /** `allCells[0].groupIndex`. */
  function FirstGroup(b: Board, c1: int, c2: int): nat
    requires MergeReady(b, c1, c2)
  {
    b.grid[MergedIndices(b, c1, c2)[0]].groupIndex
  }

  /** `allCells.every(c => c.groupIndex === firstGroupIndex)`. */
  predicate SameGroup(b: Board, c1: int, c2: int)
    requires MergeReady(b, c1, c2)
  {
    var idx := MergedIndices(b, c1, c2);
    forall j :: 0 <= j < |idx| ==> b.grid[idx[j]].groupIndex == FirstGroup(b, c1, c2)
  }

  /** The colour of the merged cluster and the colour counter after it. */
  datatype Paint = Paint(color: Option<Color>, nextColorIndex: int)

  function MergedColor(b: Board, c1: int, c2: int): Paint
    requires c1 in b.clusters && c2 in b.clusters
  {
    var size1 := |b.clusters[c1]|;
    var size2 := |b.clusters[c2]|;
    if size1 == 1 && size2 == 1 then Paint(Some(GenerateColor(b.nextColorIndex)), b.nextColorIndex + 1)
    else if size1 == 1 then Paint(Lookup(b.colors, c2), b.nextColorIndex)
    else if size2 == 1 then Paint(Lookup(b.colors, c1), b.nextColorIndex)
    else Paint(if size1 > size2 then Lookup(b.colors, c1) else Lookup(b.colors, c2), b.nextColorIndex)
  }

  /** The cells whose `cellIndex` is merged get the new cluster id. */
  function Relabel(grid: seq<GridCell>, merged: seq<int>, id: int): seq<GridCell>
  {
    seq(|grid|, i requires 0 <= i < |grid| =>
      if grid[i].cellIndex in merged then grid[i].(clusterId := id) else grid[i])
  }

  /** The cells whose `cellIndex` is merged are marked solved. */
  function MarkSolved(grid: seq<GridCell>, merged: seq<int>): seq<GridCell>
  {
    seq(|grid|, i requires 0 <= i < |grid| =>
      if grid[i].cellIndex in merged then grid[i].(solved := true) else grid[i])
  }

  const RejectMessage: string := "These don't belong to the same group!"

  function FoundMessage(group: PuzzleGroup): string
  {
    "Found: " + group.name + "!"
  }

  /** What a merge does: the new board, `mergeClusters`'s return value, and
      the message it shows (`None` for none). */
  datatype MergeResult = MergeResult(board: Board, merged: bool, message: Option<string>)

  /** What `puzzle.groups[firstGroupIndex]` needs when a solved group is
      promoted. */
  predicate MergeAllowed(b: Board, p: Puzzle, c1: int, c2: int)
  {
    MergeReady(b, c1, c2)
    && (SameGroup(b, c1, c2) && |MergedIndices(b, c1, c2)| == |p.groups| ==> FirstGroup(b, c1, c2) < |p.groups|)
  }

  /** `mergeClusters(c1, c2)`. */
  function Merge(b: Board, p: Puzzle, c1: int, c2: int): MergeResult
    requires MergeAllowed(b, p, c1, c2)
  {
    if !SameGroup(b, c1, c2) then MergeResult(b, false, Some(RejectMessage))
    else
      var merged := MergedIndices(b, c1, c2);
      var id := b.nextClusterId;
      var paint := MergedColor(b, c1, c2);
      var grid := Relabel(b.grid, merged, id);
      var clusters := (b.clusters - {c1, c2})[id := merged];
      var colors := SetColor(b.colors - {c1, c2}, id, paint.color);
      if |merged| == |p.groups| then
        var g := FirstGroup(b, c1, c2);
        var group := p.groups[g];
        MergeResult(Board(MarkSolved(grid, merged), clusters - {id}, colors - {id},
                          b.solved + [SolvedGroup(group, g)], id + 1, paint.nextColorIndex),
                    true, Some(FoundMessage(group)))
      else
        MergeResult(Board(grid, clusters, colors, b.solved, id + 1, paint.nextColorIndex), true, None)
  }

  // ---------------------------------------------------------------------------
  // Properties of a fresh board

  /** A fresh board: tile `i` is the `i`-th word in cluster `i` of its own,
      no colours, no solved groups, the next cluster id is the word count
      and the colour counter is 0. */
  lemma FreshBoardShape(words: seq<ShuffledWord>)
    ensures var b := FreshBoard(words);
      |b.grid| == |words|
      && (forall i :: 0 <= i < |words| ==>
            b.grid[i].clusterId == i && b.grid[i].cellIndex == i && !b.grid[i].solved
            && b.grid[i].word == words[i].word && b.grid[i].groupIndex == words[i].groupIndex
            && b.grid[i].groupName == words[i].groupName && b.grid[i].color == words[i].color)
      && (forall k :: k in b.clusters <==> 0 <= k < |words|)
      && (forall k :: 0 <= k < |words| ==> b.clusters[k] == [k])
      && b.colors == map[] && b.solved == [] && b.nextClusterId == |words| && b.nextColorIndex == 0
  {
  }

  /** A fresh board satisfies the invariant. */
  lemma FreshValid(words: seq<ShuffledWord>)
    ensures ValidBoard(FreshBoard(words))
  {
    var b := FreshBoard(words);
    forall k | k in b.clusters
      ensures 0 <= k < b.nextClusterId && ClusterOk(b, k)
    {
      assert b.clusters[k] == [k];
    }
    forall i | 0 <= i < |b.grid| && !b.grid[i].solved
      ensures b.grid[i].clusterId in b.clusters && i in b.clusters[b.grid[i].clusterId]
    {
      assert b.clusters[i] == [i];
    }
  }

  // ---------------------------------------------------------------------------
  // Properties of a merge

  /** The tiles of the two clusters, as a set: exactly the unsolved tiles
      naming one of them. */
  lemma MergedTiles(b: Board, c1: int, c2: int)
    requires ValidBoard(b) && c1 in b.clusters && c2 in b.clusters && c1 != c2
    ensures MergeReady(b, c1, c2)
    ensures InRange(b, MergedIndices(b, c1, c2)) && Distinct(MergedIndices(b, c1, c2))
    ensures forall i :: 0 <= i < |b.grid| ==>
      (i in MergedIndices(b, c1, c2) <==> !b.grid[i].solved && (b.grid[i].clusterId == c1 || b.grid[i].clusterId == c2))
  {
    var a := b.clusters[c1];
    var m := MergedIndices(b, c1, c2);
    assert ClusterOk(b, c1) && ClusterOk(b, c2);
    forall j1, j2 | 0 <= j1 < j2 < |m|
      ensures m[j1] != m[j2]
    {
      if j1 < |a| <= j2 {
        assert b.grid[m[j1]].clusterId == c1;
        assert b.grid[m[j2]].clusterId == c2;
      }
    }
    forall i | 0 <= i < |b.grid| && i in m
      ensures !b.grid[i].solved && (b.grid[i].clusterId == c1 || b.grid[i].clusterId == c2)
    {
      var j :| 0 <= j < |m| && m[j] == i;
      if j < |a| {
        assert a[j] == i;
      } else {
        assert b.clusters[c2][j - |a|] == i;
      }
    }
  }

  /** A merge is accepted exactly when every tile of both clusters belongs to
      the group of the first tile of the first cluster; a rejected merge
      changes nothing on the board and shows the rejection message. */
  lemma MergeSucceedsIff(b: Board, p: Puzzle, c1: int, c2: int)
    requires MergeAllowed(b, p, c1, c2)
    ensures var m := MergedIndices(b, c1, c2);
      Merge(b, p, c1, c2).merged <==> forall i :: i in m ==> b.grid[i].groupIndex == b.grid[m[0]].groupIndex
    ensures !Merge(b, p, c1, c2).merged ==>
      Merge(b, p, c1, c2).board == b && Merge(b, p, c1, c2).message == Some(RejectMessage)
  {
    var m := MergedIndices(b, c1, c2);
    if SameGroup(b, c1, c2) {
      forall i | i in m
        ensures b.grid[i].groupIndex == b.grid[m[0]].groupIndex
      {
        var j :| 0 <= j < |m| && m[j] == i;
      }
    } else {
      var j :| 0 <= j < |m| && b.grid[m[j]].groupIndex != FirstGroup(b, c1, c2);
      assert m[j] in m;
    }
  }

  /** Tile `i` after a merge: the merged tiles take the new cluster id (and
      are solved when the group is complete); every other tile is unchanged. */
  lemma MergeGridAt(b: Board, p: Puzzle, c1: int, c2: int, i: int)
    requires ValidBoard(b) && MergeAllowed(b, p, c1, c2) && SameGroup(b, c1, c2)
    requires 0 <= i < |b.grid|
    ensures var r := Merge(b, p, c1, c2).board;
      var m := MergedIndices(b, c1, c2);
      |r.grid| == |b.grid|
      && r.grid[i] == if i !in m then b.grid[i]
                      else if |m| == |p.groups| then b.grid[i].(clusterId := b.nextClusterId, solved := true)
                      else b.grid[i].(clusterId := b.nextClusterId)
  {
  }

  /** A successful merge uses the id `nextClusterId` and advances it by one,
      removes both operands from the clusters and the colours, stores the
      concatenated tiles under the new id (unless the group is complete),
      relabels exactly the operand tiles, and leaves every other cluster and
      colour as it was. */
  lemma MergeEffects(b: Board, p: Puzzle, c1: int, c2: int)
    requires ValidBoard(b) && c1 in b.clusters && c2 in b.clusters && c1 != c2
    requires MergeAllowed(b, p, c1, c2) && SameGroup(b, c1, c2)
    ensures var r := Merge(b, p, c1, c2);
      var m := MergedIndices(b, c1, c2);
      var id := b.nextClusterId;
      r.merged
      && r.board.nextClusterId == id + 1
      && c1 !in r.board.clusters && c2 !in r.board.clusters
      && c1 !in r.board.colors && c2 !in r.board.colors
      && (|m| != |p.groups| ==> r.board.clusters == (b.clusters - {c1, c2})[id := m])
      && (|m| == |p.groups| ==> r.board.clusters == b.clusters - {c1, c2})
      && (forall k :: k != c1 && k != c2 && k != id ==> Lookup(r.board.colors, k) == Lookup(b.colors, k))
      && |r.board.grid| == |b.grid|
      && (forall i :: 0 <= i < |b.grid| && i !in m ==> r.board.grid[i] == b.grid[i])
      && (forall i :: 0 <= i < |b.grid| && i in m ==> r.board.grid[i].clusterId == id)
  {
    var id := b.nextClusterId;
    assert id !in b.clusters;
    var m := MergedIndices(b, c1, c2);
    if |m| == |p.groups| {
      assert (b.clusters - {c1, c2})[id := m] - {id} == b.clusters - {c1, c2};
    }
  }

  /** The colour rule: two single tiles get a new colour and advance the
      colour counter; a single tile joining a larger cluster takes that
      cluster's colour; of two larger clusters the bigger one's colour wins,
      the second one's on a tie. Only the first case moves the counter. */
  lemma MergeColorRule(b: Board, p: Puzzle, c1: int, c2: int)
    requires MergeAllowed(b, p, c1, c2) && SameGroup(b, c1, c2)
    ensures var r := Merge(b, p, c1, c2).board;
      var size1 := |b.clusters[c1]|;
      var size2 := |b.clusters[c2]|;
      var color := Lookup(r.colors, b.nextClusterId);
      var kept := |MergedIndices(b, c1, c2)| != |p.groups|;
      (size1 == 1 && size2 == 1 ==> r.nextColorIndex == b.nextColorIndex + 1
                                    && (kept ==> color == Some(GenerateColor(b.nextColorIndex))))
      && (!(size1 == 1 && size2 == 1) ==> r.nextColorIndex == b.nextColorIndex)
      && (kept && size1 == 1 && size2 != 1 ==> color == Lookup(b.colors, c2))
      && (kept && size1 != 1 && size2 == 1 ==> color == Lookup(b.colors, c1))
      && (kept && size1 != 1 && size2 != 1 ==> color == if size1 > size2 then Lookup(b.colors, c1) else Lookup(b.colors, c2))
  {
  }

  /** Completing a group: the merged tiles are marked solved, the group and
      its index are appended to the solved groups, the merged cluster keeps
      neither a cluster entry nor a colour, and the message names the group. */
  lemma MergePromotes(b: Board, p: Puzzle, c1: int, c2: int)
    requires MergeAllowed(b, p, c1, c2) && SameGroup(b, c1, c2)
    requires |MergedIndices(b, c1, c2)| == |p.groups|
    ensures var r := Merge(b, p, c1, c2);
      var g := FirstGroup(b, c1, c2);
      g < |p.groups|
      && r.board.solved == b.solved + [SolvedGroup(p.groups[g], g)]
      && b.nextClusterId !in r.board.clusters && b.nextClusterId !in r.board.colors
      && r.message == Some(FoundMessage(p.groups[g]))
      && (forall i :: 0 <= i < |b.grid| && b.grid[i].cellIndex in MergedIndices(b, c1, c2) ==> r.board.grid[i].solved)
  {
  }

  /** An accepted merge never touches the tiles' words or groups, so the
      count of tiles per group stays what it was. */
  lemma MergeKeepsTiles(b: Board, p: Puzzle, c1: int, c2: int)
    requires MergeAllowed(b, p, c1, c2)
    ensures var r := Merge(b, p, c1, c2).board;
      |r.grid| == |b.grid|
      && forall i :: 0 <= i < |b.grid| ==>
           r.grid[i].word == b.grid[i].word && r.grid[i].groupIndex == b.grid[i].groupIndex
           && r.grid[i].cellIndex == b.grid[i].cellIndex
  {
  }

  /** Merging two different clusters of a valid board keeps it valid. */
  lemma MergePreservesValid(b: Board, p: Puzzle, c1: int, c2: int)
    requires ValidBoard(b) && TilesOf(b, p)
    requires c1 in b.clusters && c2 in b.clusters && c1 != c2
    ensures MergeAllowed(b, p, c1, c2)
    ensures ValidBoard(Merge(b, p, c1, c2).board) && TilesOf(Merge(b, p, c1, c2).board, p)
  {
    MergedTiles(b, c1, c2);
    assert ClusterOk(b, c1) && ClusterOk(b, c2);
    var m := MergedIndices(b, c1, c2);
    if SameGroup(b, c1, c2) && |m| == |p.groups| {
      assert 0 <= m[0] < |b.grid|;
    }
    assert MergeAllowed(b, p, c1, c2);
    MergeKeepsTiles(b, p, c1, c2);
    if SameGroup(b, c1, c2) {
      MergedValid(b, p, c1, c2);
    }
  }

  lemma MergedValid(b: Board, p: Puzzle, c1: int, c2: int)
    requires ValidBoard(b) && c1 in b.clusters && c2 in b.clusters && c1 != c2
    requires MergeAllowed(b, p, c1, c2) && SameGroup(b, c1, c2)
    ensures ValidBoard(Merge(b, p, c1, c2).board)
  {
    MergedTiles(b, c1, c2);
    MergedGrid(b, p, c1, c2);
    MergedKeys(b, p, c1, c2);
    MergedCover(b, p, c1, c2);
    ColorsValid(b, p, c1, c2);
  }

  /** The merged board's grid, tile by tile. */
  lemma MergedGrid(b: Board, p: Puzzle, c1: int, c2: int)
    requires ValidBoard(b) && MergeAllowed(b, p, c1, c2) && SameGroup(b, c1, c2)
    ensures var r := Merge(b, p, c1, c2).board;
      var m := MergedIndices(b, c1, c2);
      |r.grid| == |b.grid|
      && forall i :: 0 <= i < |b.grid| ==>
           r.grid[i] == if i !in m then b.grid[i]
                        else if |m| == |p.groups| then b.grid[i].(clusterId := b.nextClusterId, solved := true)
                        else b.grid[i].(clusterId := b.nextClusterId)
  {
    assert |Merge(b, p, c1, c2).board.grid| == |b.grid|;
    forall i | 0 <= i < |b.grid|
      ensures var r := Merge(b, p, c1, c2).board;
        var m := MergedIndices(b, c1, c2);
        r.grid[i] == if i !in m then b.grid[i]
                     else if |m| == |p.groups| then b.grid[i].(clusterId := b.nextClusterId, solved := true)
                     else b.grid[i].(clusterId := b.nextClusterId)
    {
      MergeGridAt(b, p, c1, c2, i);
    }
  }

  /** Every cluster of the merged board is below the next id and well formed. */
  lemma MergedKeys(b: Board, p: Puzzle, c1: int, c2: int)
    requires ValidBoard(b) && c1 in b.clusters && c2 in b.clusters && c1 != c2
    requires MergeAllowed(b, p, c1, c2) && SameGroup(b, c1, c2)
    ensures var r := Merge(b, p, c1, c2).board;
      forall k :: k in r.clusters ==> 0 <= k < r.nextClusterId && ClusterOk(r, k)
  {
    MergedTiles(b, c1, c2);
    MergedGrid(b, p, c1, c2);
    var r := Merge(b, p, c1, c2).board;
    var m := MergedIndices(b, c1, c2);
    var id := b.nextClusterId;
    var done := |m| == |p.groups|;
    assert id !in b.clusters;
    forall k | k in r.clusters
      ensures 0 <= k < r.nextClusterId && ClusterOk(r, k)
    {
      if k == id {
        assert !done && r.clusters[k] == m;
        forall j | 0 <= j < |m|
          ensures r.grid[m[j]].clusterId == k && !r.grid[m[j]].solved
                  && r.grid[m[j]].groupIndex == r.grid[m[0]].groupIndex
        {
          assert m[j] in m && m[0] in m;
        }
      } else {
        assert k in b.clusters && k != c1 && k != c2 && r.clusters[k] == b.clusters[k];
        assert ClusterOk(b, k);
        var idx := b.clusters[k];
        forall j | 0 <= j < |idx|
          ensures r.grid[idx[j]] == b.grid[idx[j]]
        {
          assert b.grid[idx[j]].clusterId == k;
        }
      }
    }
  }

  /** Every unsolved tile of the merged board is in the cluster it names. */
  lemma MergedCover(b: Board, p: Puzzle, c1: int, c2: int)
    requires ValidBoard(b) && c1 in b.clusters && c2 in b.clusters && c1 != c2
    requires MergeAllowed(b, p, c1, c2) && SameGroup(b, c1, c2)
    ensures var r := Merge(b, p, c1, c2).board;
      forall i :: 0 <= i < |r.grid| && !r.grid[i].solved ==>
        r.grid[i].clusterId in r.clusters && i in r.clusters[r.grid[i].clusterId]
  {
    MergedTiles(b, c1, c2);
    MergedGrid(b, p, c1, c2);
    var r := Merge(b, p, c1, c2).board;
    var m := MergedIndices(b, c1, c2);
    var id := b.nextClusterId;
    assert id !in b.clusters;
    forall i | 0 <= i < |r.grid| && !r.grid[i].solved
      ensures r.grid[i].clusterId in r.clusters && i in r.clusters[r.grid[i].clusterId]
    {
      if i !in m {
        var k := b.grid[i].clusterId;
        assert k in b.clusters && k != c1 && k != c2 && k < id;
      }
    }
  }

  lemma ColorsValid(b: Board, p: Puzzle, c1: int, c2: int)
    requires ValidBoard(b) && c1 in b.clusters && c2 in b.clusters && c1 != c2
    requires MergeAllowed(b, p, c1, c2) && SameGroup(b, c1, c2)
    ensures var r := Merge(b, p, c1, c2).board;
      (forall k :: k in r.colors ==> k in r.clusters && |r.clusters[k]| > 1)
      && (forall k :: k in r.clusters && |r.clusters[k]| > 1 ==> k in r.colors)
  {
    var id := b.nextClusterId;
    assert id !in b.clusters;
    assert ClusterOk(b, c1) && ClusterOk(b, c2);
    var size1 := |b.clusters[c1]|;
    var size2 := |b.clusters[c2]|;
    if size1 > 1 {
      assert c1 in b.colors;
    }
    if size2 > 1 {
      assert c2 in b.colors;
    }
    assert MergedColor(b, c1, c2).color.Some?;
  }

  // ---------------------------------------------------------------------------
  // Cluster sizes

  function OfGroup(g: int): GridCell -> bool
  {
    (c: GridCell) => c.groupIndex == g
  }

  /** No group has more than `n` tiles on the board. */
  predicate Dealt(b: Board, n: nat)
  {
    forall i :: 0 <= i < |b.grid| ==> |Positions(b.grid, OfGroup(b.grid[i].groupIndex))| <= n
  }

  lemma SubsetCard(a: set<int>, b: set<int>)
    requires a <= b
    ensures |a| <= |b|
  {
    assert b == a + (b - a);
  }

  /** A cluster is never bigger than the set of tiles of its group. */
  lemma ClusterWithinGroup(b: Board, k: int)
    requires ValidBoard(b) && k in b.clusters
    ensures b.clusters[k] != [] && 0 <= b.clusters[k][0] < |b.grid|
    ensures |b.clusters[k]| <= |Positions(b.grid, OfGroup(b.grid[b.clusters[k][0]].groupIndex))|
  {
    assert ClusterOk(b, k);
    var idx := b.clusters[k];
    var g := b.grid[idx[0]].groupIndex;
    DistinctElements(idx);
    assert Elements(idx) <= Positions(b.grid, OfGroup(g)) by {
      forall x | x in Elements(idx)
        ensures x in Positions(b.grid, OfGroup(g))
      {
        var j :| 0 <= j < |idx| && idx[j] == x;
      }
    }
    SubsetCard(Elements(idx), Positions(b.grid, OfGroup(g)));
  }

  /** So on a board where no group has more than `n` tiles, no cluster has
      more than `n` tiles either. */
  lemma ClustersAtMost(b: Board, n: nat, k: int)
    requires ValidBoard(b) && Dealt(b, n) && k in b.clusters
    ensures |b.clusters[k]| <= n
  {
    ClusterWithinGroup(b, k);
  }

  /** The board dealt for a well-formed puzzle of `n` groups has exactly `n`
      tiles of each group, and every tile names one of its groups. */
  lemma FreshDealt(p: Puzzle, rand: seq<nat>, pos: nat)
    requires WellFormed(p)
    ensures var b := FreshBoard(Shuffled(AllWords(p.groups), rand, pos));
      Dealt(b, |p.groups|) && TilesOf(b, p)
      && forall i :: 0 <= i < |b.grid| ==> |Positions(b.grid, OfGroup(b.grid[i].groupIndex))| == |p.groups|
  {
    var b := FreshBoard(Shuffled(AllWords(p.groups), rand, pos));
    forall i | 0 <= i < |b.grid|
      ensures b.grid[i].groupIndex < |p.groups|
      ensures |Positions(b.grid, OfGroup(b.grid[i].groupIndex))| == |p.groups|
    {
      FreshTile(p, rand, pos, i);
    }
  }

  lemma FreshTile(p: Puzzle, rand: seq<nat>, pos: nat, i: int)
    requires WellFormed(p) && 0 <= i < |AllWords(p.groups)|
    ensures var grid := FreshGrid(Shuffled(AllWords(p.groups), rand, pos));
      grid[i].groupIndex < |p.groups| && |Positions(grid, OfGroup(grid[i].groupIndex))| == |p.groups|
  {
    var all := AllWords(p.groups);
    var w := Shuffled(all, rand, pos);
    ShuffledIsPermutation(all, rand, pos);
    assert w[i] in multiset(all);
    var t :| 0 <= t < |all| && all[t] == w[i];
    AllWordsSound(p.groups, t);
    var g := w[i].groupIndex;
    ShuffledWordsOfWellFormed(p, rand, pos, g);
    FilterPositions(w, InGroup(g));
    FreshPositions(w, g);
  }

  lemma FreshPositions(w: seq<ShuffledWord>, g: nat)
    ensures Positions(FreshGrid(w), OfGroup(g)) == Positions(w, InGroup(g))
  {
  }

  /** A merge keeps the number of tiles of every group. */
  lemma MergeKeepsDealt(b: Board, p: Puzzle, c1: int, c2: int, n: nat)
    requires MergeAllowed(b, p, c1, c2) && Dealt(b, n)
    ensures Dealt(Merge(b, p, c1, c2).board, n)
  {
    var r := Merge(b, p, c1, c2).board;
    MergeKeepsTiles(b, p, c1, c2);
    forall i | 0 <= i < |r.grid|
      ensures |Positions(r.grid, OfGroup(r.grid[i].groupIndex))| <= n
    {
      var g := r.grid[i].groupIndex;
      assert Positions(r.grid, OfGroup(g)) == Positions(b.grid, OfGroup(g));
    }
  }

  // ---------------------------------------------------------------------------
  // Selection: handleClusterClick and handleCellClick

  /** The board, the selected cluster and the message. */
  datatype Play = Play(board: Board, selected: Option<int>, message: string)

  /** The invariant of a game in progress for puzzle `p`: a valid board whose
      tiles belong to `p`'s groups, at most `n` tiles per group, and a
      selection that names a cluster. */
  predicate ValidPlay(s: Play, p: Puzzle)
  {
    ValidBoard(s.board) && TilesOf(s.board, p) && Dealt(s.board, |p.groups|)
    && (s.selected.Some? ==> s.selected.value in s.board.clusters)
  }

  /** A merge as the component applies it: the message changes only when the
      merge shows one. */
  function ApplyMerge(s: Play, p: Puzzle, c1: int, c2: int): Play
    requires MergeAllowed(s.board, p, c1, c2)
  {
    var r := Merge(s.board, p, c1, c2);
    Play(r.board, s.selected, if r.message.Some? then r.message.value else s.message)
  }

  predicate ClickAllowed(s: Play, p: Puzzle, id: int)
  {
    s.selected.Some? && s.selected.value != id ==> MergeAllowed(s.board, p, s.selected.value, id)
  }

  /** `handleClusterClick(id)`. */
  function ClickCluster(s: Play, p: Puzzle, id: int): Play
    requires ClickAllowed(s, p, id)
  {
    if s.selected.None? then Play(s.board, Some(id), "")
    else if s.selected.value == id then s.(selected := None)
    else ApplyMerge(s, p, s.selected.value, id).(selected := None)
  }

  predicate CellClickAllowed(s: Play, p: Puzzle, cell: int)
  {
    0 <= cell < |s.board.grid| && !s.board.grid[cell].solved ==> ClickAllowed(s, p, s.board.grid[cell].clusterId)
  }

  /** `handleCellClick(cellIndex)`. */
  function ClickCell(s: Play, p: Puzzle, cell: int): Play
    requires CellClickAllowed(s, p, cell)
  {
    if !(0 <= cell < |s.board.grid|) || s.board.grid[cell].solved then s
    else ClickCluster(s, p, s.board.grid[cell].clusterId)
  }

  /** With nothing selected a click selects and clears the message; a click
      on the selected cluster deselects it; a click on another cluster
      attempts the merge and always clears the selection. */
  lemma ClickClusterCases(s: Play, p: Puzzle, id: int)
    requires ClickAllowed(s, p, id)
    ensures s.selected.None? ==> ClickCluster(s, p, id) == Play(s.board, Some(id), "")
    ensures s.selected == Some(id) ==> ClickCluster(s, p, id) == Play(s.board, None, s.message)
    ensures s.selected.Some? && s.selected.value != id ==>
      ClickCluster(s, p, id).selected.None?
      && ClickCluster(s, p, id).board == Merge(s.board, p, s.selected.value, id).board
  {
  }

  /** Clicks on solved tiles, or outside the board, change nothing. */
  lemma ClickCellIgnored(s: Play, p: Puzzle, cell: int)
    requires !(0 <= cell < |s.board.grid|) || s.board.grid[cell].solved
    ensures CellClickAllowed(s, p, cell) && ClickCell(s, p, cell) == s
  {
  }

  /** Clicking a cluster of a game in progress keeps the game valid. */
  lemma ClickPreservesValid(s: Play, p: Puzzle, id: int)
    requires ValidPlay(s, p) && id in s.board.clusters
    ensures ClickAllowed(s, p, id) && ValidPlay(ClickCluster(s, p, id), p)
  {
    if s.selected.Some? && s.selected.value != id {
      MergePreservesValid(s.board, p, s.selected.value, id);
      MergeKeepsDealt(s.board, p, s.selected.value, id, |p.groups|);
    }
  }

  /** Clicking any tile of a game in progress keeps the game valid. */
  lemma ClickCellPreservesValid(s: Play, p: Puzzle, cell: int)
    requires ValidPlay(s, p)
    ensures CellClickAllowed(s, p, cell) && ValidPlay(ClickCell(s, p, cell), p)
  {
    if 0 <= cell < |s.board.grid| && !s.board.grid[cell].solved {
      ClickPreservesValid(s, p, s.board.grid[cell].clusterId);
    }
  }

  // ---------------------------------------------------------------------------
  // Winning and saving

  /** `isWon`: every group has been found. */
  predicate IsWon(b: Board, p: Puzzle)
  {
    |b.solved| == |p.groups|
  }

  /** The record `handleSaveGame` stores. */
  function Snapshot(id: string, p: Puzzle, b: Board, now: int): SavedGame
  {
    SavedGame(id, p, b.grid, b.clusters, b.colors, None, b.solved, b.nextClusterId, b.nextColorIndex,
              |b.solved| == |p.groups|, now)
  }

  /** The board the initialisation effect restores from a saved game. */
  function Restore(g: SavedGame): Board
  {
    Board(g.grid, g.clusters, g.clusterColors, g.solvedGroups, g.nextClusterId, g.nextColorIndex)
  }

  /** Restoring a save gives back the board that was saved, and the save
      records completion exactly when the game is won. */
  lemma SnapshotRoundTrip(id: string, p: Puzzle, b: Board, now: int)
    ensures Restore(Snapshot(id, p, b, now)) == b
    ensures Snapshot(id, p, b, now).isComplete <==> IsWon(b, p)
    ensures Snapshot(id, p, b, now).id == id && Snapshot(id, p, b, now).puzzle == p
  {
  }

  // ---------------------------------------------------------------------------
  // The sidebar: mergedClusters

  datatype SidebarCluster = SidebarCluster(clusterId: int, indices: seq<int>, words: seq<string>, color: Option<Color>)

  /** The keys of `m` in `lo..hi`, ascending: the order `Object.entries`
      gives to non-negative integer keys. */
  function KeysFrom(m: map<int, seq<int>>, lo: int, hi: int): seq<int>
    decreases hi - lo
  {
    if lo >= hi then [] else (if lo in m then [lo] else []) + KeysFrom(m, lo + 1, hi)
  }

  lemma {:induction false} KeysFromSpec(m: map<int, seq<int>>, lo: int, hi: int)
    ensures forall j :: 0 <= j < |KeysFrom(m, lo, hi)| ==> KeysFrom(m, lo, hi)[j] in m && lo <= KeysFrom(m, lo, hi)[j] < hi
    ensures forall k :: k in m && lo <= k < hi ==> k in KeysFrom(m, lo, hi)
    ensures forall j1, j2 :: 0 <= j1 < j2 < |KeysFrom(m, lo, hi)| ==> KeysFrom(m, lo, hi)[j1] < KeysFrom(m, lo, hi)[j2]
    decreases hi - lo
  {
    if lo < hi {
      KeysFromSpec(m, lo + 1, hi);
    }
  }

  function Multi(m: map<int, seq<int>>): int -> bool
  {
    k => k in m && |m[k]| > 1
  }

  /** `indices.map(i => grid[i]?.word).filter(Boolean)`. */
  function ClusterWords(grid: seq<GridCell>, idx: seq<int>): seq<string>
  {
    Filter(seq(|idx|, j requires 0 <= j < |idx| => if 0 <= idx[j] < |grid| then grid[idx[j]].word else ""),
           (w: string) => w != "")
  }

  function Entry(b: Board, k: int): SidebarCluster
    requires k in b.clusters
  {
    SidebarCluster(k, b.clusters[k], ClusterWords(b.grid, b.clusters[k]), Lookup(b.colors, k))
  }

  /** `.sort((a, b) => b.indices.length - a.indices.length)`, a stable sort:
      insertion of each entry after every entry at least as large. */
  function InsertBySize(sorted: seq<SidebarCluster>, x: SidebarCluster): seq<SidebarCluster>
  {
    if sorted == [] then [x]
    else if |sorted[0].indices| < |x.indices| then [x] + sorted
    else [sorted[0]] + InsertBySize(sorted[1..], x)
  }

  function SortBySize(s: seq<SidebarCluster>): seq<SidebarCluster>
  {
    if s == [] then [] else InsertBySize(SortBySize(s[..|s| - 1]), s[|s| - 1])
  }

  /** Larger clusters first; among equal sizes, the smaller id first. */
  predicate Before(a: SidebarCluster, c: SidebarCluster)
  {
    |a.indices| > |c.indices| || (|a.indices| == |c.indices| && a.clusterId < c.clusterId)
  }

  predicate Ordered(s: seq<SidebarCluster>)
  {
    forall i, j :: 0 <= i < j < |s| ==> Before(s[i], s[j])
  }

  lemma {:induction false} InsertOrdered(sorted: seq<SidebarCluster>, x: SidebarCluster)
    requires Ordered(sorted)
    requires forall i :: 0 <= i < |sorted| ==> sorted[i].clusterId < x.clusterId
    ensures Ordered(InsertBySize(sorted, x))
    ensures multiset(InsertBySize(sorted, x)) == multiset(sorted) + multiset{x}
  {
    if sorted != [] && |sorted[0].indices| >= |x.indices| {
      assert Ordered(sorted[1..]);
      InsertOrdered(sorted[1..], x);
      var rest := InsertBySize(sorted[1..], x);
      assert sorted == [sorted[0]] + sorted[1..];
      forall e | e in multiset(rest)
        ensures Before(sorted[0], e)
      {
        if e != x {
          assert e in multiset(sorted[1..]);
          var j :| 0 <= j < |sorted[1..]| && sorted[1..][j] == e;
          assert sorted[j + 1] == e;
        }
      }
      forall j | 0 <= j < |rest|
        ensures Before(sorted[0], rest[j])
      {
        assert rest[j] in multiset(rest);
      }
    }
  }

  /** Sorting entries listed by ascending id yields the order "larger first,
      then smaller id", and sorts a permutation of them. */
  lemma {:induction false} SortOrdered(s: seq<SidebarCluster>)
    requires forall i, j :: 0 <= i < j < |s| ==> s[i].clusterId < s[j].clusterId
    ensures Ordered(SortBySize(s))
    ensures multiset(SortBySize(s)) == multiset(s)
    decreases |s|
  {
    if s != [] {
      var init := s[..|s| - 1];
      var x := s[|s| - 1];
      SortOrdered(init);
      var sorted := SortBySize(init);
      forall i | 0 <= i < |sorted|
        ensures sorted[i].clusterId < x.clusterId
      {
        assert sorted[i] in multiset(init);
        var j :| 0 <= j < |init| && init[j] == sorted[i];
      }
      InsertOrdered(sorted, x);
      assert s == init + [x];
    }
  }

  /** `Object.entries(clusters).filter(...).map(...)`. */
  function SidebarEntries(b: Board): seq<SidebarCluster>
    requires forall k :: k in b.clusters ==> 0 <= k < b.nextClusterId
  {
    var keys := Filter(KeysFrom(b.clusters, 0, b.nextClusterId), Multi(b.clusters));
    seq(|keys|, j requires 0 <= j < |keys| => Entry(b, keys[j]))
  }

  /** The sidebar: clusters of more than one tile, largest first. */
  function MergedClusters(b: Board): seq<SidebarCluster>
    requires forall k :: k in b.clusters ==> 0 <= k < b.nextClusterId
  {
    SortBySize(SidebarEntries(b))
  }

  predicate Increasing(s: seq<int>)
  {
    forall i, j :: 0 <= i < j < |s| ==> s[i] < s[j]
  }

  lemma {:induction false} FilterIncreasing(s: seq<int>, f: int -> bool)
    requires Increasing(s)
    ensures Increasing(Filter(s, f))
  {
    if s != [] {
      var tail := s[1..];
      IncreasingTail(s);
      FilterIncreasing(tail, f);
      FilterAbove(tail, f, s[0]);
      if f(s[0]) {
        IncreasingCons(s[0], Filter(tail, f));
      }
    }
  }

  lemma IncreasingTail(s: seq<int>)
    requires Increasing(s) && s != []
    ensures Increasing(s[1..])
    ensures forall i :: 0 <= i < |s[1..]| ==> s[0] < s[1..][i]
  {
    forall i | 0 <= i < |s[1..]|
      ensures s[0] < s[1..][i]
    {
      assert s[1..][i] == s[i + 1];
    }
  }

  lemma FilterAbove(s: seq<int>, f: int -> bool, x: int)
    requires forall i :: 0 <= i < |s| ==> x < s[i]
    ensures forall j :: 0 <= j < |Filter(s, f)| ==> x < Filter(s, f)[j]
  {
  }

  lemma IncreasingCons(x: int, r: seq<int>)
    requires Increasing(r) && forall j :: 0 <= j < |r| ==> x < r[j]
    ensures Increasing([x] + r)
  {
    var t := [x] + r;
    forall i, j | 0 <= i < j < |t|
      ensures t[i] < t[j]
    {
      assert t[j] == r[j - 1];
      if i > 0 {
        assert t[i] == r[i - 1];
      }
    }
  }

  /** Before sorting: one entry per cluster of more than one tile, by
      ascending id. */
  lemma SidebarEntriesSpec(b: Board)
    requires forall k :: k in b.clusters ==> 0 <= k < b.nextClusterId
    ensures var e := SidebarEntries(b);
      (forall i, j :: 0 <= i < j < |e| ==> e[i].clusterId < e[j].clusterId)
      && (forall t :: 0 <= t < |e| ==>
            e[t].clusterId in b.clusters && |b.clusters[e[t].clusterId]| > 1 && e[t] == Entry(b, e[t].clusterId))
      && (forall k :: k in b.clusters && |b.clusters[k]| > 1 ==> exists t :: 0 <= t < |e| && e[t].clusterId == k)
  {
    SidebarIncreasing(b);
    SidebarComplete(b);
  }

  lemma SidebarIncreasing(b: Board)
    requires forall k :: k in b.clusters ==> 0 <= k < b.nextClusterId
    ensures var e := SidebarEntries(b);
      forall i, j :: 0 <= i < j < |e| ==> e[i].clusterId < e[j].clusterId
  {
    KeysFromSpec(b.clusters, 0, b.nextClusterId);
    FilterIncreasing(KeysFrom(b.clusters, 0, b.nextClusterId), Multi(b.clusters));
  }

  lemma SidebarComplete(b: Board)
    requires forall k :: k in b.clusters ==> 0 <= k < b.nextClusterId
    ensures var e := SidebarEntries(b);
      forall k :: k in b.clusters && |b.clusters[k]| > 1 ==> exists t :: 0 <= t < |e| && e[t].clusterId == k
  {
    var all := KeysFrom(b.clusters, 0, b.nextClusterId);
    KeysFromSpec(b.clusters, 0, b.nextClusterId);
    var keys := Filter(all, Multi(b.clusters));
    var e := SidebarEntries(b);
    forall k | k in b.clusters && |b.clusters[k]| > 1
      ensures exists t :: 0 <= t < |e| && e[t].clusterId == k
    {
      var t :| 0 <= t < |all| && all[t] == k;
      assert Multi(b.clusters)(all[t]);
      var u :| 0 <= u < |keys| && keys[u] == k;
      assert e[u].clusterId == k;
    }
  }

  /** The sidebar lists exactly the clusters of more than one tile, each with
      its tiles and colour, larger clusters first and, among clusters of the
      same size, in ascending id order. */
  lemma MergedClustersSpec(b: Board)
    requires forall k :: k in b.clusters ==> 0 <= k < b.nextClusterId
    ensures var r := MergedClusters(b);
      (forall j :: 0 <= j < |r| ==>
         r[j].clusterId in b.clusters && |b.clusters[r[j].clusterId]| > 1 && r[j] == Entry(b, r[j].clusterId))
      && (forall k :: k in b.clusters && |b.clusters[k]| > 1 ==> exists j :: 0 <= j < |r| && r[j].clusterId == k)
      && Ordered(r)
  {
    var e := SidebarEntries(b);
    SidebarEntriesSpec(b);
    SortOrdered(e);
    var r := MergedClusters(b);
    forall j | 0 <= j < |r|
      ensures r[j].clusterId in b.clusters && |b.clusters[r[j].clusterId]| > 1 && r[j] == Entry(b, r[j].clusterId)
    {
      assert r[j] in multiset(e);
      var t :| 0 <= t < |e| && e[t] == r[j];
    }
    forall k | k in b.clusters && |b.clusters[k]| > 1
      ensures exists j :: 0 <= j < |r| && r[j].clusterId == k
    {
      var t :| 0 <= t < |e| && e[t].clusterId == k;
      assert e[t] in multiset(r);
      var j :| 0 <= j < |r| && r[j] == e[t];
    }
  }
}
