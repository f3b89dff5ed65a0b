/** Saved Connect Words games (src/data/connectwords/savedGames.ts). The
    browser's localStorage entry is the value `Storage`; JSON encoding is
    not modelled, so a stored value is either missing, unreadable, or a list
    of games. */
module SavedGames {
  import opened Common
  import opened Puzzles

  /** One tile of the board as the game keeps it. An absent `solved` flag is
      `false`: every read of it is a truthiness test. */
  datatype GridCell = GridCell(word: string, groupIndex: nat, groupName: string, color: Option<Color>,
                               clusterId: int, cellIndex: int, solved: bool)

  /** `PuzzleGroup & { groupIndex }`: a found group and its index. */
  datatype SolvedGroup = SolvedGroup(group: PuzzleGroup, groupIndex: nat)

  datatype SavedGame = SavedGame(
    id: string,
    puzzle: Puzzle,
    grid: seq<GridCell>,
    clusters: map<int, seq<int>>,
    clusterColors: map<int, Color>,
    clusterLabels: Option<map<int, string>>,
    solvedGroups: seq<SolvedGroup>,
    nextClusterId: int,
    nextColorIndex: int,
    isComplete: bool,
    savedAt: int)

  /** The localStorage entry: nothing (or the empty string), text that does
      not parse, or a parsed list of games. */
  datatype Storage = Missing | Unreadable | Games(games: seq<SavedGame>)

  /** `getSavedGames()`. */
  function GetSavedGames(st: Storage): (r: seq<SavedGame>)
    ensures !st.Games? ==> r == []
    ensures st.Games? ==> r == st.games
  {
    match st
    case Games(gs) => gs
    case _ => []
  }

  /** `games.findIndex(g => g.id === id)`, or `None` for -1. */
  function FindIndex(games: seq<SavedGame>, id: string): (r: Option<nat>)
    ensures r.None? <==> forall i :: 0 <= i < |games| ==> games[i].id != id
    ensures r.Some? ==> r.value < |games| && games[r.value].id == id
                        && forall i :: 0 <= i < r.value ==> games[i].id != id
  {
    if games == [] then None
    else if games[0].id == id then Some(0)
    else match FindIndex(games[1..], id)
      case None => None
      case Some(i) => Some(i + 1)
  }

  /** The list `saveGame` writes back: the first game with the same id is
      replaced in place, otherwise the game goes to the front. */
  function Upsert(games: seq<SavedGame>, game: SavedGame): seq<SavedGame>
  {
    match FindIndex(games, game.id)
    case Some(i) => games[i := game]
    case None => [game] + games
  }

  /** `saveGame(game)`: the storage after the call. */
  function SaveGame(st: Storage, game: SavedGame): Storage
  {
    Games(Upsert(GetSavedGames(st), game))
  }

  function LacksId(id: string): SavedGame -> bool
  {
    (g: SavedGame) => g.id != id
  }

  /** `deleteSavedGame(id)`: the storage after the call. */
  function DeleteSavedGame(st: Storage, id: string): Storage
  {
    Games(Filter(GetSavedGames(st), LacksId(id)))
  }

  /** `findSavedGame(id)`. */
  function FindSavedGame(st: Storage, id: string): (r: Option<SavedGame>)
    ensures r.None? <==> forall i :: 0 <= i < |GetSavedGames(st)| ==> GetSavedGames(st)[i].id != id
    ensures r.Some? ==> r.value in GetSavedGames(st) && r.value.id == id
  {
    match FindIndex(GetSavedGames(st), id)
    case Some(i) => Some(GetSavedGames(st)[i])
    case None => None
  }

  /** `generateGameId(puzzle)`. */
  function GenerateGameId(p: Puzzle): string
  {
    if p.generated != Some(true) then "preset-" + IntToString(p.id) else "gen-" + IntToString(p.id)
  }

  predicate UniqueIds(games: seq<SavedGame>)
  {
    forall i, j :: 0 <= i < j < |games| ==> games[i].id != games[j].id
  }

  /** A game with a new id goes in front of the others, which keep their
      order. */
  lemma SaveNew(st: Storage, game: SavedGame)
    requires forall i :: 0 <= i < |GetSavedGames(st)| ==> GetSavedGames(st)[i].id != game.id
    ensures GetSavedGames(SaveGame(st, game)) == [game] + GetSavedGames(st)
  {
  }

  /** A game whose id is stored replaces the first entry with that id; the
      length and every other entry stay as they were. */
  lemma SaveExisting(st: Storage, game: SavedGame, k: nat)
    requires k < |GetSavedGames(st)| && GetSavedGames(st)[k].id == game.id
    requires forall i :: 0 <= i < k ==> GetSavedGames(st)[i].id != game.id
    ensures var after := GetSavedGames(SaveGame(st, game));
      |after| == |GetSavedGames(st)| && after[k] == game
      && forall i :: 0 <= i < |after| && i != k ==> after[i] == GetSavedGames(st)[i]
  {
    assert FindIndex(GetSavedGames(st), game.id) == Some(k);
  }

  /** What was just saved is what `findSavedGame` returns. */
  lemma FindAfterSave(st: Storage, game: SavedGame)
    ensures FindSavedGame(SaveGame(st, game), game.id) == Some(game)
  {
    var games := GetSavedGames(st);
    var after := Upsert(games, game);
    match FindIndex(games, game.id)
    case Some(k) =>
      assert forall i :: 0 <= i < k ==> after[i] == games[i];
      assert after[k] == game;
    case None =>
      assert FindIndex(after, game.id) == Some(0);
  }

  /** Saving keeps the stored ids unique. */
  lemma SaveKeepsUnique(st: Storage, game: SavedGame)
    requires UniqueIds(GetSavedGames(st))
    ensures UniqueIds(GetSavedGames(SaveGame(st, game)))
  {
    var games := GetSavedGames(st);
    var after := Upsert(games, game);
    match FindIndex(games, game.id)
    case Some(k) =>
      forall i, j | 0 <= i < j < |after|
        ensures after[i].id != after[j].id
      {
        if i != k && j != k {
          assert after[i] == games[i] && after[j] == games[j];
        }
      }
    case None =>
      forall i, j | 0 <= i < j < |after|
        ensures after[i].id != after[j].id
      {
        if i == 0 {
          assert after[j] == games[j - 1];
        } else {
          assert after[i] == games[i - 1] && after[j] == games[j - 1];
        }
      }
  }

  /** Deleting removes every game with the id and keeps the others, in
      order. */
  lemma DeleteRemoves(st: Storage, id: string)
    ensures forall i :: 0 <= i < |GetSavedGames(DeleteSavedGame(st, id))| ==> GetSavedGames(DeleteSavedGame(st, id))[i].id != id
    ensures forall i :: 0 <= i < |GetSavedGames(st)| && GetSavedGames(st)[i].id != id
              ==> GetSavedGames(st)[i] in GetSavedGames(DeleteSavedGame(st, id))
    ensures FindSavedGame(DeleteSavedGame(st, id), id) == None
  {
    var after := GetSavedGames(DeleteSavedGame(st, id));
    assert forall i :: 0 <= i < |after| ==> LacksId(id)(after[i]);
  }

  /** Deleting twice is deleting once. */
  lemma DeleteIdempotent(st: Storage, id: string)
    ensures DeleteSavedGame(DeleteSavedGame(st, id), id) == DeleteSavedGame(st, id)
  {
    FilterIdempotent(GetSavedGames(st), LacksId(id));
  }

  /** Deleting an id and saving a game with another id commute on the
      entries that survive: the saved game is still found. */
  lemma DeleteKeepsOthers(st: Storage, game: SavedGame, id: string)
    requires game.id != id
    ensures FindSavedGame(DeleteSavedGame(SaveGame(st, game), id), game.id).Some?
  {
    var saved := GetSavedGames(SaveGame(st, game));
    FindAfterSave(st, game);
    var k := FindIndex(saved, game.id).value;
    assert LacksId(id)(saved[k]);
  }

  lemma FirstCharDiffers(a: string, b: string, x: string, y: string)
    requires |a| > 0 && |b| > 0 && a[0] != b[0]
    ensures a + x != b + y
  {
    assert (a + x)[0] == a[0];
    assert (b + y)[0] == b[0];
  }

  /** A preset puzzle and a generated puzzle never get the same game id, and
      within each kind different puzzle ids give different game ids. */
  lemma GameIdsDistinct(p: Puzzle, q: Puzzle)
    ensures (p.generated == Some(true)) != (q.generated == Some(true)) ==> GenerateGameId(p) != GenerateGameId(q)
    ensures (p.generated == Some(true)) == (q.generated == Some(true)) && p.id != q.id ==> GenerateGameId(p) != GenerateGameId(q)
  {
    if (p.generated == Some(true)) != (q.generated == Some(true)) {
      FirstCharDiffers("gen-", "preset-", IntToString(if p.generated == Some(true) then p.id else q.id),
                                       IntToString(if p.generated == Some(true) then q.id else p.id));
    } else if p.id != q.id && GenerateGameId(p) == GenerateGameId(q) {
      var pre := if p.generated == Some(true) then "gen-" else "preset-";
      assert GenerateGameId(p)[|pre|..] == IntToString(p.id);
      assert GenerateGameId(q)[|pre|..] == IntToString(q.id);
      IntToStringInjective(p.id, q.id);
    }
  }
}
