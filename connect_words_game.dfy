/** The Connect Words game component (src/components/games/ConnectWordsGame.tsx)
    as an object: its React state variables are the fields and every event
    handler is a method that updates them. Each method is specified by the
    value-level transition of module ConnectWordsBoard, where the game's
    properties are proved. */
module ConnectWordsGame {
  import opened Common
  import opened Puzzles
  import opened SavedGames
  import opened FisherYates
  import opened ConnectWordsBoard

  /** `${validation.error}`. */
  function ErrorText(e: Option<string>): string
  {
    if e.Some? then e.value else "undefined"
  }

  const RestoredMessage: string := "Game restored!"
  const SavedMessage: string := "Game saved!"

  /** `initialClusters[idx] = [idx]` for every tile, as the `forEach` loop
      builds it. */
  method InitialClusters(count: nat) returns (m: map<int, seq<int>>)
    ensures m == Singletons(count)
  {
    m := map[];
    var idx := 0;
    while idx < count
      invariant 0 <= idx <= count
      invariant m == Singletons(idx)
    {
      m := m[idx := [idx]];
      idx := idx + 1;
    }
  }

  /** The colour rule of `mergeClusters`: two single tiles get the next
      generated colour; a single tile takes its partner's colour; of two
      groups the larger one's colour wins, the second on a tie. */
  method ChooseColor(b: Board, clusterId1: int, clusterId2: int) returns (mergedColor: Option<Color>, nextColorIndex: int)
    requires clusterId1 in b.clusters && clusterId2 in b.clusters
    ensures Paint(mergedColor, nextColorIndex) == MergedColor(b, clusterId1, clusterId2)
  {
    var size1 := |b.clusters[clusterId1]|;
    var size2 := |b.clusters[clusterId2]|;
    var color1 := Lookup(b.colors, clusterId1);
    var color2 := Lookup(b.colors, clusterId2);
    nextColorIndex := b.nextColorIndex;
    if size1 == 1 && size2 == 1 {
      mergedColor := Some(GenerateColor(nextColorIndex));
      nextColorIndex := nextColorIndex + 1;
    } else if size1 == 1 {
      mergedColor := color2;
    } else if size2 == 1 {
      mergedColor := color1;
    } else {
      mergedColor := if size1 > size2 then color1 else color2;
    }
  }

  class Game {
    const puzzle: Puzzle
    const gameId: string
    var grid: seq<GridCell>
    var clusters: map<int, seq<int>>
    var clusterColors: map<int, Color>
    var selectedClusterId: Option<int>
    var solvedGroups: seq<SolvedGroup>
    var message: string
    var nextClusterId: int
    var nextColorIndex: int

    function CurrentBoard(): Board
      reads this
    {
      Board(grid, clusters, clusterColors, solvedGroups, nextClusterId, nextColorIndex)
    }

    function State(): Play
      reads this
    {
      Play(CurrentBoard(), selectedClusterId, message)
    }

    ghost predicate Valid()
      reads this
    {
      ValidPlay(State(), puzzle)
    }

    /** The `useState` initial values; the game id is the saved game's id
        when it is not empty, else the one generated for the puzzle. */
    constructor(puzzle: Puzzle, savedState: Option<SavedGame>)
      ensures this.puzzle == puzzle
      ensures gameId == if savedState.Some? && savedState.value.id != "" then savedState.value.id
                        else GenerateGameId(puzzle)
      ensures State() == Play(Board([], map[], map[], [], 0, 0), None, "")
    {
      this.puzzle := puzzle;
      gameId := if savedState.Some? && savedState.value.id != "" then savedState.value.id
                else GenerateGameId(puzzle);
      grid := [];
      clusters := map[];
      clusterColors := map[];
      selectedClusterId := None;
      solvedGroups := [];
      message := "";
      nextClusterId := 0;
      nextColorIndex := 0;
    }

    method SetBoard(b: Board)
      modifies this
      ensures CurrentBoard() == b
      ensures selectedClusterId == old(selectedClusterId) && message == old(message)
    {
      grid := b.grid;
      clusters := b.clusters;
      clusterColors := b.colors;
      solvedGroups := b.solved;
      nextClusterId := b.nextClusterId;
      nextColorIndex := b.nextColorIndex;
    }

    /** A fresh deal: `getShuffledWords`, one cluster per tile, no colours,
        nothing solved, no selection and no message. */
    method Deal(rand: seq<nat>, pos: nat) returns (next: nat)
      modifies this
      ensures State() == Play(FreshBoard(Shuffled(AllWords(puzzle.groups), rand, pos)), None, "")
      ensures next == pos + DrawsUsed(|AllWords(puzzle.groups)|)
      ensures WellFormed(puzzle) ==> Valid()
    {
      var words;
      words, next := GetShuffledWords(puzzle, rand, pos);
      var initialGrid := FreshGrid(words);
      var initialClusters := InitialClusters(|words|);
      grid := initialGrid;
      clusters := initialClusters;
      clusterColors := map[];
      selectedClusterId := None;
      solvedGroups := [];
      message := "";
      nextClusterId := |words|;
      nextColorIndex := 0;
      FreshValid(words);
      if WellFormed(puzzle) {
        FreshDealt(puzzle, rand, pos);
      }
    }

    /** The initialisation effect. An invalid puzzle only sets the error
        message; a saved game is restored as it was saved, with no selection
        and the message "Game restored!"; otherwise a fresh deal. The return
        values are the validation result and the next unread draw. */
    method Init(savedState: Option<SavedGame>, rand: seq<nat>, pos: nat) returns (validation: ValidationResult, next: nat)
      modifies this
      ensures validation.valid <==> WellFormed(puzzle)
      ensures !validation.valid ==>
        CurrentBoard() == old(CurrentBoard()) && selectedClusterId == old(selectedClusterId)
        && message == "Invalid puzzle: " + ErrorText(validation.error) && next == pos
      ensures validation.valid && savedState.Some? ==>
        State() == Play(Restore(savedState.value), None, RestoredMessage) && next == pos
      ensures validation.valid && savedState.None? ==>
        State() == Play(FreshBoard(Shuffled(AllWords(puzzle.groups), rand, pos)), None, "")
        && next == pos + DrawsUsed(|AllWords(puzzle.groups)|) && Valid()
    {
      validation := ValidatePuzzle(puzzle);
      next := pos;
      if !validation.valid {
        message := "Invalid puzzle: " + ErrorText(validation.error);
        return;
      }
      if savedState.Some? {
        SetBoard(Restore(savedState.value));
        selectedClusterId := None;
        message := RestoredMessage;
        return;
      }
      next := Deal(rand, pos);
    }

    /** `handleReset`: the same fresh deal as a new game. */
    method HandleReset(rand: seq<nat>, pos: nat) returns (next: nat)
      modifies this
      ensures State() == Play(FreshBoard(Shuffled(AllWords(puzzle.groups), rand, pos)), None, "")
      ensures next == pos + DrawsUsed(|AllWords(puzzle.groups)|)
      ensures WellFormed(puzzle) ==> Valid()
    {
      next := Deal(rand, pos);
    }

    /** `mergeClusters(clusterId1, clusterId2)`. */
    method MergeClusters(clusterId1: int, clusterId2: int) returns (ok: bool)
      requires MergeAllowed(CurrentBoard(), puzzle, clusterId1, clusterId2)
      modifies this
      ensures State() == ApplyMerge(old(State()), puzzle, clusterId1, clusterId2)
      ensures ok == Merge(old(CurrentBoard()), puzzle, clusterId1, clusterId2).merged
    {
      var b := CurrentBoard();
      if !SameGroup(b, clusterId1, clusterId2) {
        message := RejectMessage;
        return false;
      }
      var mergedIndices := clusters[clusterId1] + clusters[clusterId2];
      var newClusterId := nextClusterId;
      var mergedColor;
      mergedColor, nextColorIndex := ChooseColor(b, clusterId1, clusterId2);
      var newGrid := Relabel(grid, mergedIndices, newClusterId);
      var newClusters := clusters - {clusterId1, clusterId2};
      newClusters := newClusters[newClusterId := mergedIndices];
      var newClusterColors := clusterColors - {clusterId1, clusterId2};
      newClusterColors := SetColor(newClusterColors, newClusterId, mergedColor);
      if |mergedIndices| == |puzzle.groups| {
        var groupIndex := FirstGroup(b, clusterId1, clusterId2);
        var group := puzzle.groups[groupIndex];
        solvedGroups := solvedGroups + [SolvedGroup(group, groupIndex)];
        grid := MarkSolved(newGrid, mergedIndices);
        newClusters := newClusters - {newClusterId};
        newClusterColors := newClusterColors - {newClusterId};
        clusters := newClusters;
        clusterColors := newClusterColors;
        message := FoundMessage(group);
      } else {
        grid := newGrid;
        clusters := newClusters;
        clusterColors := newClusterColors;
      }
      nextClusterId := newClusterId + 1;
      return true;
    }

    /** `handleClusterClick(clusterId)`, from a tile or from the sidebar. */
    method HandleClusterClick(clusterId: int)
      requires ClickAllowed(State(), puzzle, clusterId)
      modifies this
      ensures State() == ClickCluster(old(State()), puzzle, clusterId)
      ensures old(Valid()) && clusterId in old(clusters) ==> Valid()
    {
      ClickPreservesValidIf(State(), puzzle, clusterId);
      if selectedClusterId.None? {
        selectedClusterId := Some(clusterId);
        message := "";
      } else if selectedClusterId.value == clusterId {
        selectedClusterId := None;
      } else {
        var _ := MergeClusters(selectedClusterId.value, clusterId);
        selectedClusterId := None;
      }
    }

    /** `handleCellClick(cellIndex)`: clicks outside the board or on solved
        tiles are ignored. */
    method HandleCellClick(cellIndex: int)
      requires CellClickAllowed(State(), puzzle, cellIndex)
      modifies this
      ensures State() == ClickCell(old(State()), puzzle, cellIndex)
      ensures old(Valid()) ==> Valid()
    {
      if !(0 <= cellIndex < |grid|) || grid[cellIndex].solved {
        return;
      }
      HandleClusterClick(grid[cellIndex].clusterId);
    }

    /** `isWon`. */
    predicate Won()
      reads this
    {
      IsWon(CurrentBoard(), puzzle)
    }

    /** `handleSaveGame`: stores the snapshot and shows "Game saved!". */
    method HandleSaveGame(store: Storage, now: int) returns (after: Storage)
      modifies this
      ensures after == SaveGame(store, Snapshot(gameId, puzzle, old(CurrentBoard()), now))
      ensures CurrentBoard() == old(CurrentBoard()) && selectedClusterId == old(selectedClusterId)
      ensures message == SavedMessage
    {
      var game := Snapshot(gameId, puzzle, CurrentBoard(), now);
      after := SaveGame(store, game);
      message := SavedMessage;
    }

    /** `mergedClusters`, the sidebar. */
    function Sidebar(): seq<SidebarCluster>
      reads this
      requires Valid()
    {
      MergedClusters(CurrentBoard())
    }
  }

  lemma ClickPreservesValidIf(s: Play, p: Puzzle, id: int)
    requires ClickAllowed(s, p, id)
    ensures ValidPlay(s, p) && id in s.board.clusters ==> ValidPlay(ClickCluster(s, p, id), p)
  {
    if ValidPlay(s, p) && id in s.board.clusters {
      ClickPreservesValid(s, p, id);
    }
  }
}
