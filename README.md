# A verified model of pazqo.github.io's puzzles and games

This project models the logic behind the puzzle and game pages of the
pazqo.github.io portfolio site:

- **Connect Words.** The puzzle data and its validation, the word shuffle,
  the puzzle generator that builds an n×n puzzle from a database of lists,
  the saved-game store, and the game engine. The engine is a class whose
  fields are the component's state. Clicking two clusters merges them when
  their words belong to the same group, and a merge that completes a group
  promotes it to the solved groups.
- **Black & White.** The path puzzle: the board rules (frame, inner cells,
  adjacency, win check), the solvable-board generator (a random walk from
  a frame cell plus random row flips) and the game class (the click
  handler, restart, undo and size change).
- **Sudoku.** The page's sorting, formatting, paging and solved-set
  bookkeeping (a class with the page's state); the embedded grid (decoding
  f-puzzles and SudokuPad links, the box layout and thick borders); and
  the SudokuPad embed's puzzle-id extraction.
- **Blog and mechanical puzzles.** YouTube id extraction; the blog post
  index and the slug lookup; the mechanical-puzzle gallery filter; and the
  two build scripts, the CSV-to-JSON catalog converter and the solve-video
  index generator.

Randomness (`Math.random()`) is a parameter: a sequence of draws and a
position in it. Every randomised operation returns the next position. The
clock (`Date.now()`, `new Date()`) is a parameter too, and so are the
file system, `localStorage`, LZString decompression and `JSON.parse`. The
module `Common` holds JavaScript's string and array operations as used by
the source (`trim`, `includes`, `split`, `join`, `slice` with negative
indices, `parseInt`, number-to-string, ASCII lower-casing, `filter`).
`UrlPatterns` holds hand-written matchers for the source's regular
expressions, with the leftmost-match and greedy-with-backtracking
semantics of JavaScript's regular expressions.

Where a source loop changes variables step by step, the model has a
`method` with a `while` or `for` loop, proved against a specification
function. The properties are then proved about that function as lemmas.

## Model

| member | source | states |
|---|---|---|
| Puzzles.ValidatePuzzle | src/data/connectwords/puzzles.ts:163-180 | valid exactly when there are 5 to 100 groups and every group has as many words as there are groups; otherwise the size error, or the error naming the first group of the wrong length |
| Puzzles.GroupWords | src/data/connectwords/puzzles.ts:187-192 | one shuffled word per word of the group, carrying the group's index, name and colour |
| Puzzles.AllWordsLength | src/data/connectwords/puzzles.ts:186-193 | the flattened word list has as many words as all groups together |
| Puzzles.AllWordsSquare | src/data/connectwords/puzzles.ts:186-193 | groups of n words each flatten to groups × n words |
| Puzzles.AllWordsSound | src/data/connectwords/puzzles.ts:186-193 | every flattened word names an existing group, belongs to its words and carries its name and colour |
| Puzzles.AllWordsComplete | src/data/connectwords/puzzles.ts:186-193 | every word of every group appears in the flattened list with its group's index, name and colour |
| Puzzles.GroupWordsCount | src/data/connectwords/puzzles.ts:187-192 | one group's words all carry that group's index and no other |
| Puzzles.AllWordsGroupCount | src/data/connectwords/puzzles.ts:186-193 | the flattened list holds exactly as many words of group gi as group gi has |
| Puzzles.AllWordsIndexBelow | src/data/connectwords/puzzles.ts:186-193 | no flattened word carries a group index past the last group |
| Puzzles.GetShuffledWords | src/data/connectwords/puzzles.ts:185-202 | the Fisher–Yates shuffle of the flattened words: a permutation of them, using one draw per position above 0 |
| Puzzles.ShuffledWordsOfWellFormed | src/data/connectwords/puzzles.ts:185-202 | the shuffled words of a valid n-group puzzle are n × n words, n of each group |
| Puzzles.FilterMultiset | src/data/connectwords/puzzles.ts:196-199 | a permutation keeps the number of words of each group |
| Puzzles.BasePuzzlesWellFormed | src/data/connectwords/puzzles.ts:32-156 | the three sample puzzles pass validation and have ids 1, 2 and 3 |
| Puzzles.AllWords | src/data/connectwords/puzzles.ts:186-193 | every group's words, group after group and in order, each tagged with its group's index, name and colour |
| Random.FloorTimes | src/data/connectwords/puzzles.ts:197 | `Math.floor(Math.random() * k)` is below k, and every index below k is reachable |
| FisherYates.SwapPermutation | src/data/connectwords/puzzles.ts:198 | swapping two entries permutes the list |
| FisherYates.Partner | src/data/connectwords/puzzles.ts:197 | the partner drawn for position i is at most i |
| FisherYates.Steps | src/data/connectwords/puzzles.ts:196-199 | the shuffle steps from position i down to 1 keep the length |
| FisherYates.StepsPermutation | src/data/connectwords/puzzles.ts:196-199 | the shuffle steps permute the list |
| FisherYates.StepsKeepAbove | src/data/connectwords/puzzles.ts:196-199 | the steps from i down leave every position above i alone |
| FisherYates.Shuffled | src/data/connectwords/puzzleGenerator.ts:84-91 | the shuffled copy has the input's length |
| FisherYates.ShuffledIsPermutation | src/data/connectwords/puzzleGenerator.ts:84-91 | the shuffle is a permutation of its input |
| FisherYates.ShuffledLast | src/data/connectwords/puzzleGenerator.ts:86-88 | the last position receives the entry at the first draw's partner |
| FisherYates.SwapInPlace | src/data/connectwords/puzzleGenerator.ts:88 | the array after the destructuring swap is the swapped list |
| FisherYates.ShuffleInPlace | src/data/connectwords/puzzles.ts:196-199 | the in-place loop leaves the array holding the shuffled list and uses one draw per position above 0 |
| FisherYates.Shuffle | src/data/connectwords/puzzleGenerator.ts:84-91 | a shuffled copy, a permutation of the input, with the draws used |
| PuzzleGenerator.EligibleLists | src/data/connectwords/puzzleGenerator.ts:46-48 | exactly the lists with at least minItems items |
| PuzzleGenerator.EligibleNarrows | src/data/connectwords/puzzleGenerator.ts:46-48 | a higher minimum selects a sub-list of a lower one's selection, so no more lists |
| PuzzleGenerator.MinCount | src/data/connectwords/puzzleGenerator.ts:56-63 | the smallest item count, absent for an empty database |
| PuzzleGenerator.MaxCount | src/data/connectwords/puzzleGenerator.ts:56-64 | the largest item count, absent for an empty database |
| PuzzleGenerator.RoundedAverage | src/data/connectwords/puzzleGenerator.ts:65 | the average is absent exactly when there are no lists |
| PuzzleGenerator.RoundedAverageNearest | src/data/connectwords/puzzleGenerator.ts:65 | `Math.round(total / count)` is the integer nearest the average, halves rounded up |
| PuzzleGenerator.GetDbStats | src/data/connectwords/puzzleGenerator.ts:53-79 | the list and item totals, the extremes and rounded average of the item counts, and the eligible counts for sizes 5, 6, 7, 8, 10, 12, 15, 20 and 25 |
| PuzzleGenerator.AvailableForDecreasing | src/data/connectwords/puzzleGenerator.ts:67-77 | a larger size never has more eligible lists |
| PuzzleGenerator.GetAvailableLists | src/data/connectwords/puzzleGenerator.ts:164-170 | one summary per list with its id, name and item count |
| PuzzleGenerator.AvailableListsTotal | src/data/connectwords/puzzleGenerator.ts:164-170 | the summaries' counts add up to the database's item total |
| PuzzleGenerator.Find | src/data/connectwords/puzzleGenerator.ts:123 | `find` by id: absent exactly when no list has the id, otherwise a list with that id |
| PuzzleGenerator.PickSound | src/data/connectwords/puzzleGenerator.ts:120-128 | the required lists and the remaining ones come from the eligible lists; none remaining has a required id; every selected list has one; no more lists are selected than ids are required |
| PuzzleGenerator.PickApart | src/data/connectwords/puzzleGenerator.ts:120-128 | selected and remaining lists together are drawn from the eligible ones without duplication |
| PuzzleGenerator.PickClears | src/data/connectwords/puzzleGenerator.ts:126 | no remaining list carries a required id |
| PuzzleGenerator.PickCarries | src/data/connectwords/puzzleGenerator.ts:123-125 | every selected list carries a required id |
| PuzzleGenerator.PickStepSound | src/data/connectwords/puzzleGenerator.ts:123-127 | one required id either selects nothing or appends a list with that id and removes that id from the remaining lists |
| PuzzleGenerator.PickKeeps | src/data/connectwords/puzzleGenerator.ts:120-128 | an eligible list stays available unless its id is required |
| PuzzleGenerator.PickComplete | src/data/connectwords/puzzleGenerator.ts:120-128 | a required id held by an eligible list gets a selected list |
| PuzzleGenerator.PickCounts | src/data/connectwords/puzzleGenerator.ts:120-128 | with distinct ids, selected plus remaining lists are exactly the eligible ones in number |
| PuzzleGenerator.FilterOutUnique | src/data/connectwords/puzzleGenerator.ts:126 | with distinct ids, dropping a present id removes exactly one list |
| PuzzleGenerator.CandidatesIff | src/data/connectwords/puzzleGenerator.ts:108-113 | a list is a candidate exactly when it has at least n items and its id is not excluded |
| PuzzleGenerator.ChosenFromCandidates | src/data/connectwords/puzzleGenerator.ts:130-136 | the final lists are drawn from the candidates without duplication |
| PuzzleGenerator.GenerateNullIff | src/data/connectwords/puzzleGenerator.ts:104-159 | null exactly when fewer than n candidates exist; otherwise id is the clock, the title `Generated Puzzle (n×n)`, generated is true and size is n |
| PuzzleGenerator.GeneratedGroup | src/data/connectwords/puzzleGenerator.ts:139-150 | every generated group has n words drawn from one candidate list (its name and source id), and colour index i of n |
| PuzzleGenerator.BuiltGroup | src/data/connectwords/puzzleGenerator.ts:139-150 | group i takes list i's name and id, the i-of-n colour, and n of its items when it has n |
| PuzzleGenerator.GeneratedIncludes | src/data/connectwords/puzzleGenerator.ts:122-128 | every required id held by a candidate becomes the source of some group |
| PuzzleGenerator.FinalHasRequired | src/data/connectwords/puzzleGenerator.ts:122-136 | a required candidate survives both shuffles into the final lists |
| PuzzleGenerator.GeneratedSize | src/data/connectwords/puzzleGenerator.ts:130-159 | with distinct ids and at most n required lists found, the puzzle has exactly n groups, and it passes validation exactly when 5 <= n <= 100 |
| PuzzleGenerator.GeneratedOverfull | src/data/connectwords/puzzleGenerator.ts:130-139 | with more than n required lists found, the negative `remaining` slice keeps every required list and the puzzle has more than n groups |
| PuzzleGenerator.PickRequired | src/data/connectwords/puzzleGenerator.ts:120-128 | the include loop computes the required lists and the lists left over |
| PuzzleGenerator.MakeGroup | src/data/connectwords/puzzleGenerator.ts:140-149 | one group built from a list, using one draw per item position above 0 |
| PuzzleGenerator.MakeGroups | src/data/connectwords/puzzleGenerator.ts:139-150 | the `map` over the final lists, with its draws |
| PuzzleGenerator.BuildGroupsStep | src/data/connectwords/puzzleGenerator.ts:139-150 | the group built at step i extends the groups built so far |
| PuzzleGenerator.ChooseLists | src/data/connectwords/puzzleGenerator.ts:130-136 | the lists chosen by the two shuffles, with the draws used |
| PuzzleGenerator.GeneratePuzzle | src/data/connectwords/puzzleGenerator.ts:104-159 | the generator computes the specification's puzzle (or null) and the next draw position |
| PuzzleGenerator.PickIncludedSnoc | src/data/connectwords/puzzleGenerator.ts:122-128 | one more required id is one more step of the include loop |
| PuzzleGenerator.GetMaxPuzzleSize | src/data/connectwords/puzzleGenerator.ts:175-187 | the largest n from the number of lists down to 5 having n lists of at least n items, or 5 when none does |
| PuzzleGenerator.MaxSizeGenerates | src/data/connectwords/puzzleGenerator.ts:175-187 | at the size found, an unrestricted generation succeeds |
| PuzzleGenerator.SubUnique | src/data/connectwords/puzzleGenerator.ts:133-136 | a selection without duplication from lists with distinct ids has distinct ids |
| PuzzleGenerator.GeneratedDistinctSources | src/data/connectwords/puzzleGenerator.ts:139-150 | with distinct list ids, no two groups share a source list |
| PuzzleGenerator.Candidates | src/data/connectwords/puzzleGenerator.ts:108-113 | the candidates are the lists with at least n items, less the excluded ids when there are any |
| PuzzleGenerator.PickIncluded | src/data/connectwords/puzzleGenerator.ts:120-128 | each required id in turn moves the first candidate with that id, when there is one, from the remaining candidates to the selected lists |
| PuzzleGenerator.FinalLists | src/data/connectwords/puzzleGenerator.ts:130-136 | the selected lists plus the first remaining ones after a shuffle, up to n, are shuffled again |
| PuzzleGenerator.Title | src/data/connectwords/puzzleGenerator.ts:154 | the title is `Generated Puzzle (n×n)` |
| PuzzleGenerator.GenerateSpec | src/data/connectwords/puzzleGenerator.ts:104-159 | null when fewer than n candidates remain; otherwise a puzzle marked generated of size n, with the clock as id, the title, and one group per final list holding the first n of its shuffled items and the colour for its index |
| SavedGames.GetSavedGames | src/data/connectwords/savedGames.ts:29-39 | the stored list, or empty when storage is missing or unreadable |
| SavedGames.FindIndex | src/data/connectwords/savedGames.ts:43 | the first index holding the id, absent exactly when no game has it |
| SavedGames.FindSavedGame | src/data/connectwords/savedGames.ts:68-70 | absent exactly when no stored game has the id, otherwise a stored game with it |
| SavedGames.SaveNew | src/data/connectwords/savedGames.ts:47-49 | saving a game with a new id puts it at the front |
| SavedGames.SaveExisting | src/data/connectwords/savedGames.ts:45-46 | saving a game with a known id replaces the first game with that id in place and changes nothing else |
| SavedGames.FindAfterSave | src/data/connectwords/savedGames.ts:41-52 | a saved game is found again by its id |
| SavedGames.SaveKeepsUnique | src/data/connectwords/savedGames.ts:41-52 | saving keeps the stored ids distinct |
| SavedGames.DeleteRemoves | src/data/connectwords/savedGames.ts:54-57 | deleting removes every game with the id, keeps every other one, and the id is no longer found |
| SavedGames.DeleteIdempotent | src/data/connectwords/savedGames.ts:54-57 | deleting twice changes nothing more |
| SavedGames.DeleteKeepsOthers | src/data/connectwords/savedGames.ts:41-57 | deleting another id keeps a just-saved game |
| SavedGames.GameIdsDistinct | src/data/connectwords/savedGames.ts:59-66 | preset ids and generated ids never clash, and within each kind distinct puzzle ids give distinct game ids |
| SavedGames.SaveGame | src/data/connectwords/savedGames.ts:41-52 | a save replaces the stored game with the same id in place, or puts the game first when there is none |
| SavedGames.DeleteSavedGame | src/data/connectwords/savedGames.ts:54-57 | a delete keeps, in order, every stored game whose id differs |
| SavedGames.GenerateGameId | src/data/connectwords/savedGames.ts:59-66 | the id is `preset-` and the puzzle id for a puzzle not marked generated, `gen-` and the puzzle id otherwise |
| ConnectWordsBoard.FreshBoardShape | src/components/games/ConnectWordsGame.tsx:63-83 | a fresh game puts word i at cell i in its own cluster i, with no colours, no solved groups, the next cluster id the word count and the colour counter 0 |
| ConnectWordsBoard.FreshValid | src/components/games/ConnectWordsGame.tsx:63-83 | a fresh board satisfies the board invariant (clusters partition the unsolved cells, colours only on multi-cell clusters, ids below the next id) |
| ConnectWordsBoard.MergedTiles | src/components/games/ConnectWordsGame.tsx:137-148 | on a valid board the merged index list is distinct and in range, and holds exactly the unsolved cells of the two clusters |
| ConnectWordsBoard.MergeSucceedsIff | src/components/games/ConnectWordsGame.tsx:144-147 | a merge goes ahead exactly when all the cells of both clusters share the first cell's group; otherwise the board is unchanged and the rejection message is shown |
| ConnectWordsBoard.MergeGridAt | src/components/games/ConnectWordsGame.tsx:168-194 | after a merge, a merged cell takes the new cluster id (and is solved when the group is complete); every other cell is unchanged |
| ConnectWordsBoard.MergeEffects | src/components/games/ConnectWordsGame.tsx:147-210 | a merge removes both old clusters and colours, adds the new cluster unless it completes the group, leaves other colours alone, and increments the next cluster id |
| ConnectWordsBoard.MergeColorRule | src/components/games/ConnectWordsGame.tsx:151-166 | two singletons take a new colour from the counter, which advances; a singleton joining a cluster takes that cluster's colour; otherwise the larger cluster's colour wins, the second on a tie |
| ConnectWordsBoard.MergePromotes | src/components/games/ConnectWordsGame.tsx:185-203 | a merge reaching n cells appends the group with its index to the solved groups, marks its cells solved, drops the new cluster and colour, and shows `Found: <name>!` |
| ConnectWordsBoard.MergeKeepsTiles | src/components/games/ConnectWordsGame.tsx:168-194 | a merge never changes any cell's word, group or position |
| ConnectWordsBoard.MergePreservesValid | src/components/games/ConnectWordsGame.tsx:136-217 | merging two distinct clusters of a valid board is allowed and keeps the board invariant and the tiles of the puzzle |
| ConnectWordsBoard.MergedValid | src/components/games/ConnectWordsGame.tsx:147-211 | an accepted merge keeps the board invariant |
| ConnectWordsBoard.MergedGrid | src/components/games/ConnectWordsGame.tsx:168-195 | the whole grid after an accepted merge, cell by cell |
| ConnectWordsBoard.MergedKeys | src/components/games/ConnectWordsGame.tsx:175-199 | after a merge, every cluster id is below the next id and its cells are in range and carry that id |
| ConnectWordsBoard.MergedCover | src/components/games/ConnectWordsGame.tsx:168-199 | after a merge, every unsolved cell sits in the cluster its id names |
| ConnectWordsBoard.ColorsValid | src/components/games/ConnectWordsGame.tsx:180-198 | after a merge, exactly the clusters of more than one cell have a colour |
| ConnectWordsBoard.ClusterWithinGroup | src/components/games/ConnectWordsGame.tsx:144-148 | on a valid board a cluster is non-empty and no larger than the cells of its first cell's group |
| ConnectWordsBoard.ClustersAtMost | src/components/games/ConnectWordsGame.tsx:185 | when each group has n cells, no cluster has more than n, so a merge of n cells is the whole group |
| ConnectWordsBoard.FreshDealt | src/components/games/ConnectWordsGame.tsx:63-83 | a fresh deal of a valid puzzle has n cells per group and matches the puzzle's tiles |
| ConnectWordsBoard.FreshTile | src/components/games/ConnectWordsGame.tsx:64-69 | every dealt cell belongs to one of the puzzle's groups, which has n cells |
| ConnectWordsBoard.FreshPositions | src/components/games/ConnectWordsGame.tsx:65-69 | the cells of a group in the grid are the positions of that group's words |
| ConnectWordsBoard.MergeKeepsDealt | src/components/games/ConnectWordsGame.tsx:168-194 | a merge keeps n cells per group |
| ConnectWordsBoard.ClickClusterCases | src/components/games/ConnectWordsGame.tsx:220-230 | with nothing selected a click selects and clears the message; clicking the selection again deselects; otherwise it merges with the selection and deselects |
| ConnectWordsBoard.ClickCellIgnored | src/components/games/ConnectWordsGame.tsx:232-234 | a click on a missing or solved cell changes nothing |
| ConnectWordsBoard.ClickPreservesValid | src/components/games/ConnectWordsGame.tsx:220-230 | a click on a cluster keeps the game invariant |
| ConnectWordsBoard.ClickCellPreservesValid | src/components/games/ConnectWordsGame.tsx:232-236 | a click on any cell keeps the game invariant |
| ConnectWordsBoard.SnapshotRoundTrip | src/components/games/ConnectWordsGame.tsx:50-112 | restoring a saved snapshot gives the board back; the snapshot is complete exactly when every group is solved, and carries the game id and puzzle |
| ConnectWordsBoard.KeysFromSpec | src/components/games/ConnectWordsGame.tsx:125 | `Object.entries` lists the integer keys in increasing order, each once |
| ConnectWordsBoard.InsertOrdered | src/components/games/ConnectWordsGame.tsx:133 | inserting a later entry into a sorted sidebar keeps it sorted and adds exactly that entry |
| ConnectWordsBoard.SortOrdered | src/components/games/ConnectWordsGame.tsx:133 | the stable sort by size puts larger clusters first, ties in id order, and permutes its input |
| ConnectWordsBoard.FilterIncreasing | src/components/games/ConnectWordsGame.tsx:126 | filtering entries keeps their increasing key order |
| ConnectWordsBoard.SidebarEntriesSpec | src/components/games/ConnectWordsGame.tsx:125-132 | the sidebar entries come in key order, one per cluster of more than one cell, each with its indices, words and colour |
| ConnectWordsBoard.SidebarIncreasing | src/components/games/ConnectWordsGame.tsx:125-132 | the sidebar entries are in increasing id order before sorting |
| ConnectWordsBoard.SidebarComplete | src/components/games/ConnectWordsGame.tsx:126 | every cluster of more than one cell has a sidebar entry |
| ConnectWordsBoard.MergedClustersSpec | src/components/games/ConnectWordsGame.tsx:124-133 | the sidebar lists exactly the clusters of more than one cell, larger first and ties in id order |
| ConnectWordsBoard.GenerateColor | src/components/games/ConnectWordsGame.tsx:21-24 | the colour of the index-th new cluster, the hue index × 137.5 mod 360 kept symbolic |
| ConnectWordsBoard.Merge | src/components/games/ConnectWordsGame.tsx:136-217 | clusters whose tiles are not all of one group are left as they are, with the rejection message; otherwise their tiles form a new cluster under the next id and colour; a cluster holding a whole group is marked solved, dropped from the clusters and colours and appended to the solved groups with the found message |
| ConnectWordsBoard.ClickCluster | src/components/games/ConnectWordsGame.tsx:220-230 | with nothing selected a click selects the cluster and clears the message; a click on the selection deselects it; a click on another cluster merges the two and deselects |
| ConnectWordsBoard.ClickCell | src/components/games/ConnectWordsGame.tsx:232-236 | a click on a missing or solved cell does nothing; any other is a click on its cluster |
| ConnectWordsBoard.Snapshot | src/components/games/ConnectWordsGame.tsx:100-112 | the saved record holds the game id, the puzzle, the board state, the timestamp, and is complete when every group is solved |
| ConnectWordsBoard.Restore | src/components/games/ConnectWordsGame.tsx:50-56 | restoring takes the grid, clusters, colours, solved groups and both counters from the saved record |
| ConnectWordsGame.InitialClusters | src/components/games/ConnectWordsGame.tsx:71-74 | the `forEach` loop makes each index its own cluster |
| ConnectWordsGame.ChooseColor | src/components/games/ConnectWordsGame.tsx:151-166 | the colour chain computes the merged colour and the next colour index of the colour rule |
| ConnectWordsGame.Game.constructor | src/components/games/ConnectWordsGame.tsx:27-37 | the saved id (when non-empty) or the generated id, and an empty board with nothing selected |
| ConnectWordsGame.Game.SetBoard | src/components/games/ConnectWordsGame.tsx:51-56 | the state fields take the board's values; the selection and message stay |
| ConnectWordsGame.Game.Deal | src/components/games/ConnectWordsGame.tsx:63-83 | a fresh shuffled board with nothing selected and no message, valid for a valid puzzle |
| ConnectWordsGame.Game.Init | src/components/games/ConnectWordsGame.tsx:42-84 | an invalid puzzle only sets `Invalid puzzle: <error>`; a saved state is restored verbatim with `Game restored!`; otherwise a fresh deal |
| ConnectWordsGame.Game.HandleReset | src/components/games/ConnectWordsGame.tsx:238-259 | a fresh deal, without validating the puzzle |
| ConnectWordsGame.Game.MergeClusters | src/components/games/ConnectWordsGame.tsx:136-217 | the new state is the merge of the specification, and the result says whether the merge went ahead |
| ConnectWordsGame.Game.HandleClusterClick | src/components/games/ConnectWordsGame.tsx:220-230 | the new state is the click of the specification, and a valid game stays valid |
| ConnectWordsGame.Game.HandleCellClick | src/components/games/ConnectWordsGame.tsx:232-236 | the new state is the cell click of the specification, and a valid game stays valid |
| ConnectWordsGame.Game.HandleSaveGame | src/components/games/ConnectWordsGame.tsx:100-117 | the store after saving the snapshot with the clock's time; the board stays and the message is `Game saved!` |
| ConnectWordsGame.ClickPreservesValidIf | src/components/games/ConnectWordsGame.tsx:220-230 | a cluster click on a valid game keeps it valid |
| BlackWhiteRules.FrameIsRing | src/components/games/BlackWhiteGame.tsx:31-37 | on the board, `isFrame` is the outer ring (row or column 0 or size + 1) and `isInner` its complement |
| BlackWhiteRules.AdjacentIsManhattan | src/components/games/BlackWhiteGame.tsx:43-47 | two cells are adjacent exactly when their Manhattan distance is 1, and adjacency is symmetric |
| BlackWhiteRules.WonIff | src/components/games/BlackWhiteGame.tsx:50-78 | the board is won exactly when every inner column is one colour or every inner row is one colour |
| BlackWhiteRules.FlipAtShape | src/components/games/BlackWhiteGame.tsx:258-261 | flipping a cell changes that cell's colour and nothing else |
| BlackWhiteRules.TracedShape | src/components/games/BlackWhiteGame.tsx:258-263 | the board after tracing a path keeps its shape |
| BlackWhiteRules.TracedEmpty | src/components/games/BlackWhiteGame.tsx:276 | tracing no path leaves the board as it was |
| BlackWhiteRules.TracedSnoc | src/components/games/BlackWhiteGame.tsx:258-263 | one more step of the path flips the new cell when it is inner and changes nothing when it is the frame |
| BlackWhiteRules.ValidShaped | src/components/games/BlackWhiteGame.tsx:227-273 | a valid game has a square board of size + 2 |
| BlackWhiteRules.FreshValid | src/components/games/BlackWhiteGame.tsx:212-225 | a newly installed framed board is a valid game with no start, no path and not won |
| BlackWhiteRules.ClickIsMove | src/components/games/BlackWhiteGame.tsx:247-271 | a click that passes the move test is that move |
| BlackWhiteRules.MoveValid | src/components/games/BlackWhiteGame.tsx:252-270 | an accepted move keeps the game valid: the board is the original traced along the path |
| BlackWhiteRules.ClickCases | src/components/games/BlackWhiteGame.tsx:227-273 | a click either extends the path by an adjacent cell that is new and not the start (flipping it when inner and rechecking the win), or (on the frame before any path, when not won) resets the start and the board, or changes nothing |
| BlackWhiteRules.ToggleTwice | src/components/games/BlackWhiteGame.tsx:289-290 | flipping a black or white cell twice restores it |
| BlackWhiteRules.UndoInvertsMove | src/components/games/BlackWhiteGame.tsx:282-297 | undoing a move that did not win restores the game before it |
| BlackWhiteRules.FramedInner | src/components/games/BlackWhiteGame.tsx:259 | in a valid game an inner cell is never the frame |
| BlackWhiteRules.RestartForgetsMove | src/components/games/BlackWhiteGame.tsx:275-280 | restarting after a move is restarting before it |
| BlackWhiteRules.RestartValid | src/components/games/BlackWhiteGame.tsx:275-280 | restart gives the original board with no path, the current cell back at the start, and keeps the game valid |
| BlackWhiteRules.ClickValid | src/components/games/BlackWhiteGame.tsx:227-273 | any click keeps the game valid |
| BlackWhiteRules.UndoValid | src/components/games/BlackWhiteGame.tsx:282-297 | undo keeps the game valid |
| BlackWhiteRules.Clamp | src/components/games/BlackWhiteGame.tsx:300 | `Math.max(3, Math.min(8, n))` lies in 3..8, is n inside the range, and the nearer bound outside it |
| BlackWhiteRules.IsFrame | src/components/games/BlackWhiteGame.tsx:31-33 | a cell is on the frame when it lies in the first or last row or column of the board |
| BlackWhiteRules.IsAdjacent | src/components/games/BlackWhiteGame.tsx:43-47 | two positions are adjacent when they differ by one in exactly one coordinate and agree in the other |
| BlackWhiteRules.Won | src/components/games/BlackWhiteGame.tsx:50-78 | the board is won when every inner column has one colour or every inner row has one colour |
| BlackWhiteRules.Traced | src/components/games/BlackWhiteGame.tsx:258-261 | the board after walking a path: each inner cell on the path is toggled once from the original board, every other cell is unchanged |
| BlackWhiteRules.Move | src/components/games/BlackWhiteGame.tsx:258-270 | an accepted move toggles an inner target, appends the target to the path, makes it the current position, and sets the win flag when the new board is uniform |
| BlackWhiteRules.Click | src/components/games/BlackWhiteGame.tsx:227-273 | a click does nothing once won or while generating; a frame cell with no start yet becomes start and current, empties the path and resets the board; a frame cell with an empty path moves the start the same way; an adjacent cell off the path that is not the start is moved to; any other click does nothing |
| BlackWhiteRules.Undo | src/components/games/BlackWhiteGame.tsx:282-297 | undo does nothing when the path is empty or the game is won; otherwise it drops the last cell, toggles it back when it is inner, and the current position becomes the new last cell, or the start when the path is now empty |
| BlackWhiteRules.Restart | src/components/games/BlackWhiteGame.tsx:275-280 | restart puts back the original board, empties the path, returns the current position to the start and clears the win flag |
| BlackWhiteGen.FrameStarts | src/components/games/BlackWhiteGame.tsx:158-164 | the loop lists top, bottom, left and right frame cells for i = 1..size, 4 × size cells |
| BlackWhiteGen.StartsAreFrameStarts | src/components/games/BlackWhiteGame.tsx:157-164 | the listed starts are exactly the frame cells that are not corners |
| BlackWhiteGen.KeepInBoardIn | src/components/games/BlackWhiteGame.tsx:150 | the bounds test keeps exactly the in-board positions |
| BlackWhiteGen.NeighborsIff | src/components/games/BlackWhiteGame.tsx:144-155 | the neighbours are exactly the in-board cells adjacent to the position |
| BlackWhiteGen.GetNeighbors | src/components/games/BlackWhiteGame.tsx:144-155 | the direction loop computes the neighbours |
| BlackWhiteGen.MinPathLength | src/components/games/BlackWhiteGame.tsx:171 | the walk's minimum length is at least 3 |
| BlackWhiteGen.WalkSnoc | src/components/games/BlackWhiteGame.tsx:189-200 | appending a new adjacent inner cell extends a walk |
| BlackWhiteGen.CandidatesIff | src/components/games/BlackWhiteGame.tsx:179-184 | the inner candidates are exactly the unvisited inner cells adjacent to the current cell |
| BlackWhiteGen.NoCandidateStuck | src/components/games/BlackWhiteGame.tsx:181-202 | no inner candidate means every inner neighbour of the walk's end is on the walk |
| BlackWhiteGen.StepExtends | src/components/games/BlackWhiteGame.tsx:189-206 | taking a candidate extends the walk and the visited set |
| BlackWhiteGen.ChooseNext | src/components/games/BlackWhiteGame.tsx:176-203 | a chosen next cell is a candidate; none is chosen only when there is no candidate or the walk has reached its minimum length |
| BlackWhiteGen.GenerateRandomPath | src/components/games/BlackWhiteGame.tsx:130-210 | the path is a walk of 1 to size × size inner cells entered from a non-corner frame cell; it stops at its minimum length or later, at size × size cells, or when stuck |
| BlackWhiteGen.FirstStep | src/components/games/BlackWhiteGame.tsx:166-175 | from any start the first step has an inner candidate, so the walk is never empty |
| BlackWhiteGen.Inward | src/components/games/BlackWhiteGame.tsx:166-175 | every non-corner frame cell has an adjacent inner cell |
| BlackWhiteGen.InitBoard | src/components/games/BlackWhiteGame.tsx:90-100 | the board starts with the frame around all-white inner cells |
| BlackWhiteGen.FlipPath | src/components/games/BlackWhiteGame.tsx:106-110 | flipping along a walk of distinct inner cells toggles each of them once |
| BlackWhiteGen.RowsDrawnSound | src/components/games/BlackWhiteGame.tsx:113-117 | the rows drawn into the set are distinct, between 1 and size, and are exactly the rows drawn |
| BlackWhiteGen.DrawRows | src/components/games/BlackWhiteGame.tsx:113-117 | the loop draws until the set holds the wanted number of rows (or the draws run out), never stopping early |
| BlackWhiteGen.FlipRow | src/components/games/BlackWhiteGame.tsx:120-122 | flipping a row toggles its inner cells and nothing else |
| BlackWhiteGen.FlipRows | src/components/games/BlackWhiteGame.tsx:119-123 | flipping the drawn rows gives the board of the walk and the rows |
| BlackWhiteGen.RowsAreGenBoard | src/components/games/BlackWhiteGame.tsx:86-127 | the array holds the generated board |
| BlackWhiteGen.GenerateSolvableBoard | src/components/games/BlackWhiteGame.tsx:86-127 | the board is the all-white board flipped along a walk and along distinct rows, with the message naming the walk's length |
| BlackWhiteGen.GenBoardValid | src/components/games/BlackWhiteGame.tsx:86-127 | a generated board is framed and makes a valid fresh game |
| BlackWhiteGen.Replay | src/components/games/BlackWhiteGame.tsx:227-273 | replaying clicks on a valid game keeps it valid |
| BlackWhiteGen.WalkAccepts | src/components/games/BlackWhiteGame.tsx:247-271 | each step of the walk, clicked in order, is accepted |
| BlackWhiteGen.WalkedStep | src/components/games/BlackWhiteGame.tsx:227-273 | clicking the next step of the walk advances the walk by one |
| BlackWhiteGen.MoveWalked | src/components/games/BlackWhiteGame.tsx:252-270 | the move to the next step of the walk advances the walk by one |
| BlackWhiteGen.WalkedBoardWins | src/components/games/BlackWhiteGame.tsx:86-127 | tracing its own walk on a generated board gives a won board: each inner row is one colour |
| BlackWhiteGen.WalkedAll | src/components/games/BlackWhiteGame.tsx:268-270 | a game that has walked the whole path on such a board is won |
| BlackWhiteGen.WalkWins | src/components/games/BlackWhiteGame.tsx:227-273 | replaying the rest of the walk from any point of it wins |
| BlackWhiteGen.GeneratedSolvable | src/components/games/BlackWhiteGame.tsx:80-84 | clicking the start and then the walk wins the fresh game on the generated board |
| BlackWhiteGen.GeneratedBoardSolvable | src/components/games/BlackWhiteGame.tsx:80-84 | every generated board is solvable by a sequence of clicks |
| BlackWhiteGame.Game.constructor | src/components/games/BlackWhiteGame.tsx:13-23 | the initial size, no board, no path, no start, not won |
| BlackWhiteGame.Game.CheckWin | src/components/games/BlackWhiteGame.tsx:50-78 | the nested loops with breaks compute the win test |
| BlackWhiteGame.Game.GenerateNewBoard | src/components/games/BlackWhiteGame.tsx:212-225 | a freshly generated board, copied as the original, with no path or start; the game is valid and solvable |
| BlackWhiteGame.Game.Install | src/components/games/BlackWhiteGame.tsx:218-224 | the new board and its copy replace the game state |
| BlackWhiteGame.Game.HandleCellClick | src/components/games/BlackWhiteGame.tsx:227-273 | the new state is the click of the rules, and the game stays valid |
| BlackWhiteGame.Game.SetStart | src/components/games/BlackWhiteGame.tsx:231-245 | the clicked frame cell becomes start and current, the board goes back to the original, and the path is cleared when no start was set |
| BlackWhiteGame.Game.MoveTo | src/components/games/BlackWhiteGame.tsx:258-270 | the new state is the move of the rules |
| BlackWhiteGame.Game.Restart | src/components/games/BlackWhiteGame.tsx:275-280 | the new state is the restart of the rules, and the game stays valid |
| BlackWhiteGame.Game.UndoMove | src/components/games/BlackWhiteGame.tsx:282-297 | the new state is the undo of the rules, and the game stays valid |
| BlackWhiteGame.Game.HandleSizeChange | src/components/games/BlackWhiteGame.tsx:299-309 | the size becomes the clamped size; an unchanged size changes nothing, a changed one regenerates a valid board |
| UrlPatterns.RunSpec | src/components/sudoku/fpuzzles.ts:28 | a negated class like `[^&]` consumes the longest run of allowed characters from a position |
| UrlPatterns.CaptureShape | src/components/sudoku/fpuzzles.ts:28 | a capture `(...+)` is the non-empty maximal run of class characters, and `{n}` exactly n of them |
| UrlPatterns.MatchPos | src/components/blog/YouTubeEmbed.tsx:29-31 | `match` reports no position, or a position where the pattern matches |
| UrlPatterns.MatchPosLeftmost | src/components/sudoku/fpuzzles.ts:28 | the position found is the leftmost at which the pattern matches |
| UrlPatterns.MatchFirstAt | src/components/sudoku/fpuzzles.ts:28 | the leftmost matching position is the one found |
| UrlPatterns.MatchParts | src/components/sudoku/SudokuEmbed.tsx:26 | a match consists of the head (lead character and literal key) at the leftmost position, the optional group when it is present, and the capture right after |
| UrlPatterns.MatchFacts | src/components/sudoku/SudokuEmbed.tsx:26 | the captured text occurs right after the head, consists of class characters, and (for `+`) is non-empty and maximal |
| UrlPatterns.MatchAfterKey | src/components/blog/YouTubeEmbed.tsx:23-27 | a key followed by n class characters, with no earlier key, matches a `{n}` pattern with exactly those characters |
| UrlPatterns.MatchAfterPrefix | src/components/blog/YouTubeEmbed.tsx:23-27 | a prefix free of the key's first letter, then key and capture, matches with that capture |
| UrlPatterns.KeyMatchToEnd | src/components/sudoku/fpuzzles.ts:38 | a key with no earlier occurrence, followed by allowed characters to the end, captures them all |
| UrlPatterns.LeadMatchToEnd | src/components/sudoku/fpuzzles.ts:28 | a lead character (`?` or `&`) with none before it, then the key and allowed characters to the end, captures them all |
| UrlPatterns.KeyBeforeCapture | src/components/sudoku/fpuzzles.ts:38 | a key-only pattern's match is the key followed by the capture |
| UrlPatterns.MarkerInMatch | src/components/sudoku/SudokuEmbed.tsx:22-26 | a string the pattern matches contains the pattern's marker text, so the `includes` test before the match always passes |
| UrlPatterns.RunToEnd | src/components/sudoku/fpuzzles.ts:28 | a run with no excluded character lasts to the end |
| SudokuEmbed.EmbedUrl | src/components/sudoku/SudokuEmbed.tsx:51 | the embed URL is `https://sudokupad.app/` followed by the puzzle id |
| SudokuEmbed.SudokuPadMarkerImplied | src/components/sudoku/SudokuEmbed.tsx:22-26 | a SudokuPad match implies the `sudokupad.app` test passed |
| SudokuEmbed.ExtractFromSudokuPad | src/components/sudoku/SudokuEmbed.tsx:18-28 | a trimmed input matching the SudokuPad pattern gives its capture: the text after `sudokupad.app/` (and an optional `fpuzzles/`) up to `?`, `&` or `#` |
| SudokuEmbed.SudokuPadCapture | src/components/sudoku/SudokuEmbed.tsx:26 | the shape of the SudokuPad capture: non-empty, after the key and optional folder, with none of `?&#` |
| SudokuEmbed.ExtractFromFPuzzles | src/components/sudoku/SudokuEmbed.tsx:30-34 | otherwise an f-puzzles input with `?load=` or `&load=` gives `fpuzzles` followed by the value up to `&` |
| SudokuEmbed.ExtractFromPenpa | src/components/sudoku/SudokuEmbed.tsx:36-40 | otherwise a penpa input with `?m=` or `#m=` gives `penpa` followed by the value up to `&` |
| SudokuEmbed.ExtractOther | src/components/sudoku/SudokuEmbed.tsx:42-43 | any other input is returned trimmed |
| SudokuEmbed.ValueAfterKey | src/components/sudoku/SudokuEmbed.tsx:32-38 | a `[?&]key=([^&]+)` match is a non-empty value without `&` right after a lead character and the key |
| SudokuEmbed.EmbedUrlRoundTrip | src/components/sudoku/SudokuEmbed.tsx:18-51 | the id of the embed URL of a plain SudokuPad id is that id |
| SudokuEmbed.EmbedUrlTrimmed | src/components/sudoku/SudokuEmbed.tsx:51 | an embed URL of an id not ending in a space is already trimmed |
| SudokuEmbed.SudokuPadFirst | src/components/sudoku/SudokuEmbed.tsx:22-27 | a SudokuPad match wins over the later tests |
| SudokuEmbed.EmbedUrlMatch | src/components/sudoku/SudokuEmbed.tsx:26 | the SudokuPad pattern captures the id from its embed URL |
| SudokuEmbed.EmbedUrlNoEarlierHead | src/components/sudoku/SudokuEmbed.tsx:26 | the pattern does not match before position 8 of an embed URL |
| SudokuEmbed.EmbedUrlMatchAt | src/components/sudoku/SudokuEmbed.tsx:26 | the pattern matches at position 8 of an embed URL, capturing the id |
| SudokuEmbed.ExtractPuzzleId | src/components/sudoku/SudokuEmbed.tsx:18-44 | the input is trimmed; a SudokuPad link gives the path after the host and an optional `fpuzzles/`; an f-puzzles link gives `fpuzzles` and its `load` value; a penpa link gives `penpa` and its `m` value; each form is tried only when its marker occurs, and when none applies the trimmed text is the id |
| FPuzzles.WithDefaults | src/components/sudoku/fpuzzles.ts:52-58 | `size \|\| 9` keeps a non-zero size and replaces a missing or zero one; `grid \|\| []` keeps a given grid; the other fields are copied |
| FPuzzles.DecodeFPuzzles | src/components/sudoku/fpuzzles.ts:22-63 | the decoder's result is the payload (the `load=` value of an f-puzzles link, else the path of a SudokuPad link, else the trimmed input) decompressed and parsed with defaults, or null at the first failure |
| FPuzzles.NoLoadIsNull | src/components/sudoku/fpuzzles.ts:27-33 | an f-puzzles link without `load=` decodes to null |
| FPuzzles.Base64HasNoMarker | src/components/sudoku/fpuzzles.ts:27-37 | base-64 data contains neither `f-puzzles.com` nor `sudokupad.app` |
| FPuzzles.Base64Trimmed | src/components/sudoku/fpuzzles.ts:24 | base-64 data is already trimmed |
| FPuzzles.RawPayload | src/components/sudoku/fpuzzles.ts:24-45 | raw base-64 data is decompressed as it is |
| FPuzzles.PayloadOfLoad | src/components/sudoku/fpuzzles.ts:27-34 | an f-puzzles link's payload is its `load=` value |
| FPuzzles.FPuzzlesLinkPayload | src/components/sudoku/fpuzzles.ts:22-45 | `https://f-puzzles.com/?load=` followed by data gives the data back |
| FPuzzles.LinkTrimmed | src/components/sudoku/fpuzzles.ts:24 | a link made of a prefix and base-64 data is already trimmed |
| FPuzzles.FPuzzlesLinkLoad | src/components/sudoku/fpuzzles.ts:27-30 | the `load=` pattern captures the data of an f-puzzles link |
| FPuzzles.FPuzzlesMarkerInLink | src/components/sudoku/fpuzzles.ts:27 | an f-puzzles link passes the `includes` test |
| FPuzzles.PayloadOfSudokuPad | src/components/sudoku/fpuzzles.ts:37-42 | a SudokuPad link's payload is the text after `sudokupad.app/` up to `?` |
| FPuzzles.SudokuPadLinkPayload | src/components/sudoku/fpuzzles.ts:22-45 | `https://sudokupad.app/` followed by data gives the data back |
| FPuzzles.SudokuPadLinkData | src/components/sudoku/fpuzzles.ts:37-41 | the SudokuPad pattern captures the data of a SudokuPad link |
| FPuzzles.NoEarlySudokuPadKey | src/components/sudoku/fpuzzles.ts:38 | the key `sudokupad.app/` does not occur before position 8 of such a link |
| FPuzzles.NoFPuzzlesInSudokuPadLink | src/components/sudoku/fpuzzles.ts:27 | a SudokuPad link with base-64 data skips the f-puzzles branch |
| FPuzzles.SudokuPadPayload | src/components/sudoku/fpuzzles.ts:36-42 | a SudokuPad input's payload is the capture, which is the non-empty text after the key up to `?` |
| FPuzzles.SudokuPadData | src/components/sudoku/fpuzzles.ts:38 | the capture of `sudokupad\.app\/([^?]+)` is the text after the key, non-empty, without `?` |
| FPuzzles.CellAt | src/components/sudoku/fpuzzles.ts:76-80 | a missing row or cell is empty and not given; the value is kept unless it is missing or 0; the cell is given exactly when `given` is true |
| FPuzzles.RowCells | src/components/sudoku/fpuzzles.ts:75-81 | one output cell per column |
| FPuzzles.Rows | src/components/sudoku/fpuzzles.ts:74-82 | size × size output cells |
| FPuzzles.RowsIndex | src/components/sudoku/fpuzzles.ts:74-82 | the cell of row r and column c lands at index r × size + c |
| FPuzzles.ToGridRowMajor | src/components/sudoku/fpuzzles.ts:68-85 | the grid keeps the size, has size² cells, and is laid out row by row |
| FPuzzles.FPuzzlesToGrid | src/components/sudoku/fpuzzles.ts:68-85 | the nested loops compute the row-major grid of size² cells |
| FPuzzles.PayloadOf | src/components/sudoku/fpuzzles.ts:27-42 | an f-puzzles link gives its `load` value, or null when it has none; then text holding `sudokupad.app` gives what follows `sudokupad.app/` up to the first `?`, when that is not empty |
| FPuzzles.Payload | src/components/sudoku/fpuzzles.ts:24-42 | the compressed text is read from the trimmed input |
| FPuzzles.Decoded | src/components/sudoku/fpuzzles.ts:22-63 | null when there is no payload, the decompressor fails or gives empty text, or the parser fails; otherwise the parsed data with a size of 9 and an empty grid for missing or falsy values |
| FPuzzles.ToGrid | src/components/sudoku/fpuzzles.ts:68-85 | size rows of size cells in row-major order, each with the value and given flag of its grid entry, missing entries empty |
| SudokuGrid.Clean | src/components/sudoku/SudokuGrid.tsx:31-38 | cleaning keeps only digits and dots |
| SudokuGrid.SizeForLength | src/components/sudoku/SudokuGrid.tsx:32-36 | the size is 4, 6, 9 or 16, and for a length of 16, 36, 81 or 256 it is that length's square root (9 otherwise) |
| SudokuGrid.PlainCell | src/components/sudoku/SudokuGrid.tsx:39-42 | `0` and `.` are empty and not given; another digit is given with its value |
| SudokuGrid.PlainGrid | src/components/sudoku/SudokuGrid.tsx:30-44 | the plain grid has the size of the cleaned length and one cell per kept character |
| SudokuGrid.CleanKeepsExactly | src/components/sudoku/SudokuGrid.tsx:31-38 | cleaning is the filter of the kept characters: it keeps every one of them, adds nothing, and cleaning again changes nothing |
| SudokuGrid.Serialize | src/components/sudoku/SudokuGrid.tsx:39-42 | a grid written back as text has one kept character per cell |
| SudokuGrid.PlainChar | src/components/sudoku/SudokuGrid.tsx:40-41 | the character written for a cell is a kept one |
| SudokuGrid.SerializeRoundTrip | src/components/sudoku/SudokuGrid.tsx:30-44 | reading back a serialised grid gives the same cells, and a standard length gives a square grid |
| SudokuGrid.GridForShape | src/components/sudoku/SudokuGrid.tsx:21-45 | when the decoder is tried and succeeds, its grid (size² cells); otherwise the plain grid |
| SudokuGrid.ShortDigitsArePlain | src/components/sudoku/SudokuGrid.tsx:23 | a string of at most 100 digits and dots never goes to the decoder |
| SudokuGrid.NoDotMarker | src/components/sudoku/SudokuGrid.tsx:23 | digits and dots never contain `f-puzzles.com` or `sudokupad.app` |
| SudokuGrid.ISqrt | src/components/sudoku/SudokuGrid.tsx:50-51 | the integer square root r has r² <= n < (r+1)² |
| SudokuGrid.Root | src/components/sudoku/SudokuGrid.tsx:50-51 | `Math.sqrt` is modelled as exact: a root when the size is a perfect square, and none exists otherwise |
| SudokuGrid.StandardBoxes | src/components/sudoku/SudokuGrid.tsx:49-51 | for sizes 4, 6, 9 and 16, the box is width × height = size, both divide the size, and only the 6 × 6 box is not square (3 wide, 2 high) |
| SudokuGrid.RootOfSquare | src/components/sudoku/SudokuGrid.tsx:50-51 | the square root of m² is m |
| SudokuGrid.Border | src/components/sudoku/SudokuGrid.tsx:75-76 | a border is 1 or 2 wide |
| SudokuGrid.Place | src/components/sudoku/SudokuGrid.tsx:71-72 | cell idx goes to row `floor(idx / size)` and column `idx % size`, with row × size + col = idx |
| SudokuGrid.BoxBoundary | src/components/sudoku/SudokuGrid.tsx:75 | `(i + 1) % w == 0` exactly when i and i + 1 lie in different boxes of width w |
| SudokuGrid.ThickBordersSplitBoxes | src/components/sudoku/SudokuGrid.tsx:70-76 | a thick right (bottom) border sits exactly between two columns (rows) of different boxes, never on the last one |
| SudokuGrid.BorderSplits | src/components/sudoku/SudokuGrid.tsx:75-76 | a thick border of a box width w sits exactly where the box changes, before the last index |
| SudokuGrid.GridFor | src/components/sudoku/SudokuGrid.tsx:21-45 | the decoder is tried for an f-puzzles or SudokuPad link or a text longer than 100; its grid is used when it succeeds, the plain digit format otherwise |
| SudokuGrid.BoxWidth | src/components/sudoku/SudokuGrid.tsx:50 | boxes are 3 wide on a 6 grid and the square root wide otherwise |
| SudokuGrid.BoxHeight | src/components/sudoku/SudokuGrid.tsx:51 | boxes are 2 high on a 6 grid and the square root high otherwise |
| YouTubeEmbed.FirstMatchSpec | src/components/blog/YouTubeEmbed.tsx:29-32 | the loop returns the capture of the first pattern that matches, after none of the earlier ones did, or nothing when none matches |
| YouTubeEmbed.ExtractVideoIdCases | src/components/blog/YouTubeEmbed.tsx:14-35 | an 11-character id is returned as it is; otherwise the capture of the first matching link pattern (an 11-character id), or the trimmed input when none matches |
| YouTubeEmbed.LinkPosition | src/components/blog/YouTubeEmbed.tsx:24-26 | a link pattern's match is its key followed by the id |
| YouTubeEmbed.ExtractShape | src/components/blog/YouTubeEmbed.tsx:14-35 | the result is either the trimmed input or a well-formed id |
| YouTubeEmbed.VideoIdTrimmed | src/components/blog/YouTubeEmbed.tsx:15-18 | an id has no surrounding spaces |
| YouTubeEmbed.ExtractIdempotent | src/components/blog/YouTubeEmbed.tsx:14-35 | extracting again from an extracted id changes nothing |
| YouTubeEmbed.ExtractLink | src/components/blog/YouTubeEmbed.tsx:23-32 | for a trimmed input that is not 11 characters: a watch link wins, then an embed link, then a short link |
| YouTubeEmbed.FirstOfThree | src/components/blog/YouTubeEmbed.tsx:29-32 | trying three patterns in order takes the first that matches |
| YouTubeEmbed.WatchLinkId | src/components/blog/YouTubeEmbed.tsx:24 | `...youtube.com/watch?v=<id>...` gives the id |
| YouTubeEmbed.LinkTrimmed | src/components/blog/YouTubeEmbed.tsx:15 | a link that starts and ends with non-space characters is already trimmed |
| YouTubeEmbed.EmbedLinkId | src/components/blog/YouTubeEmbed.tsx:25 | `...youtube.com/embed/<id>...` gives the id |
| YouTubeEmbed.NoWatchInEmbedLink | src/components/blog/YouTubeEmbed.tsx:24-25 | an embed link never matches the watch pattern |
| YouTubeEmbed.NoWatchAt | src/components/blog/YouTubeEmbed.tsx:24-25 | the watch key occurs nowhere in an embed link |
| YouTubeEmbed.ShortLinkId | src/components/blog/YouTubeEmbed.tsx:26 | `...youtu.be/<id>` gives the id |
| YouTubeEmbed.NoYoutubeCom | src/components/blog/YouTubeEmbed.tsx:24-26 | a short link contains no `youtube.com/` |
| YouTubeEmbed.NoKeyNoMatch | src/components/blog/YouTubeEmbed.tsx:24-25 | without `youtube.com/` neither long pattern matches |
| YouTubeEmbed.EmbedUrl | src/components/blog/YouTubeEmbed.tsx:41 | the embed URL starts with the privacy-enhanced embed prefix and the id |
| YouTubeEmbed.EmbedUrlInjective | src/components/blog/YouTubeEmbed.tsx:41 | two embed URLs of well-formed ids are equal exactly when the ids are equal and both have the same truthy start, or neither has one |
| YouTubeEmbed.AspectClass | src/components/blog/YouTubeEmbed.tsx:42 | `4:3` gives the 4/3 class, and every other value the video class |
| YouTubeEmbed.FirstMatch | src/components/blog/YouTubeEmbed.tsx:29-32 | the capture of the first pattern that matches, or none |
| YouTubeEmbed.ExtractVideoId | src/components/blog/YouTubeEmbed.tsx:14-35 | the input is trimmed; eleven identifier characters are the id; otherwise the capture of the first link form that matches; otherwise the trimmed text |
| SudokuPage.OfDifficultyConcat | src/pages/Sudoku.tsx:85-92 | selecting one difficulty distributes over concatenation |
| SudokuPage.InsertSorted | src/pages/Sudoku.tsx:85-92 | inserting into an ordered list keeps it ordered and adds exactly that puzzle |
| SudokuPage.InsertStable | src/pages/Sudoku.tsx:85-92 | insertion keeps the relative order of the puzzles of each difficulty, putting the new one last among its equals |
| SudokuPage.SortByDifficultySpec | src/pages/Sudoku.tsx:86-88 | sorting by difficulty gives an ordered permutation that keeps the list's order among puzzles of equal difficulty (the sort is stable) |
| SudokuPage.SortByDate | src/pages/Sudoku.tsx:89-91 | by date descending the list keeps its order, and ascending it is reversed |
| SudokuPage.PageCount | src/pages/Sudoku.tsx:94 | the page count is the least number of pages that holds every entry (`Math.ceil`) |
| SudokuPage.PageShape | src/pages/Sudoku.tsx:95 | a page holds at most a page size of entries: the slice from the page's start, or nothing past the end |
| SudokuPage.PagesCover | src/pages/Sudoku.tsx:94-95 | the pages up to the page count, put together, give back the whole list |
| SudokuPage.PrevPage | src/pages/Sudoku.tsx:281 | the previous page is one less, never below 0 |
| SudokuPage.NextPage | src/pages/Sudoku.tsx:296 | the next page is one more, never past the last page |
| SudokuPage.PageClamps | src/pages/Sudoku.tsx:281-297 | from a page in range both buttons stay in range; previous changes nothing exactly on the first page, next exactly on the last |
| SudokuPage.FilteredBenchmark | src/pages/Sudoku.tsx:130-137 | the filtered list holds exactly the benchmark entries that pass the solved-only test and the case-insensitive title or author search |
| SudokuPage.FilteredBenchmarkCases | src/pages/Sudoku.tsx:130-137 | with solved-only every entry is in the solves index; with neither filter nothing is removed; filtering distributes over concatenation |
| SudokuPage.MySolvedCount | src/pages/Sudoku.tsx:158 | the solved count is at most the filtered length, and equal to it with solved-only set |
| SudokuPage.Toggled | src/pages/Sudoku.tsx:145-156 | toggling flips the membership of that id and no other |
| SudokuPage.ToggleTwice | src/pages/Sudoku.tsx:145-156 | toggling twice gives back the set |
| SudokuPage.DifficultyStars | src/pages/Sudoku.tsx:107 | a level from 0 to 5 gives five stars, the first `level` filled; other levels make `repeat` throw, modelled as no result |
| SudokuPage.DayLength | src/pages/Sudoku.tsx:118 | a day group is one or two digits followed by `.` |
| SudokuPage.WordEnd | src/pages/Sudoku.tsx:118 | the month group runs to the first character outside its class |
| SudokuPage.YearInWord | src/pages/Sudoku.tsx:118 | the year is the first four-digit run the backtracking regex reaches inside the month word, or none exists there |
| SudokuPage.DateAt | src/pages/Sudoku.tsx:118 | a match at a position has a one- or two-digit day, a non-empty month of word characters and a four-digit year |
| SudokuPage.FormatDateWith | src/pages/Sudoku.tsx:110 | `Gestern` becomes `Recent` |
| SudokuPage.FormatDateMatch | src/pages/Sudoku.tsx:118-124 | `d. Month yyyy` becomes `yyyy-mm-dd`, with the month's number (or `01` when unknown) and the day padded to two digits |
| SudokuPage.FormatOfMatch | src/pages/Sudoku.tsx:119-124 | a match at the start is formatted from its three groups |
| SudokuPage.DateAtParts | src/pages/Sudoku.tsx:118 | the regex matches at the start exactly the day, month and year fields of the standard layout |
| SudokuPage.NoDotNoMatch | src/pages/Sudoku.tsx:118 | a text without `.` never matches |
| SudokuPage.FormatDateNoMatch | src/pages/Sudoku.tsx:126 | a text without `.` (other than `Gestern`) comes back unchanged |
| SudokuPage.MarchAsWritten | src/pages/Sudoku.tsx:113-118 | `d. März yyyy` comes back unchanged, since `\w` does not match `ä` |
| SudokuPage.MarchIntended | src/pages/Sudoku.tsx:113-124 | with the umlauts in the month class, `d. März yyyy` becomes `yyyy-03-dd` |
| SudokuPage.Page.constructor | src/pages/Sudoku.tsx:66-74 | first page, by date descending, first benchmark page, empty search, nothing solved, solved-only off |
| SudokuPage.Page.LoadSolved | src/pages/Sudoku.tsx:48-79 | the solved set becomes the stored list's elements, or empty when nothing is stored or it does not parse; nothing else changes |
| SudokuPage.Page.ToggleSort | src/pages/Sudoku.tsx:97-105 | the same field flips the direction, another field sorts that one descending; the page returns to 0 |
| SudokuPage.Page.ToggleSolved | src/pages/Sudoku.tsx:145-156 | the id's membership flips and the new set is what is stored |
| SudokuPage.Page.FirstPage | src/pages/Sudoku.tsx:270 | the page becomes 0 |
| SudokuPage.Page.Prev | src/pages/Sudoku.tsx:281 | the page becomes the previous one, staying at 0 |
| SudokuPage.Page.Next | src/pages/Sudoku.tsx:296-297 | the page becomes the next one; the button is disabled on the last page |
| SudokuPage.Page.SetSearchQuery | src/pages/Sudoku.tsx:327 | the query is set and the benchmark returns to its first page |
| SudokuPage.Page.SetShowSolvedOnly | src/pages/Sudoku.tsx:339 | the flag is set and the benchmark returns to its first page |
| SudokuPage.Page.BenchFirst | src/pages/Sudoku.tsx:443 | the benchmark page becomes 0 |
| SudokuPage.Page.BenchPrev | src/pages/Sudoku.tsx:454 | the benchmark page becomes the previous one, staying at 0 |
| SudokuPage.Page.BenchNext | src/pages/Sudoku.tsx:469-470 | the benchmark page becomes the next one; the button is disabled from the last page on |
| SudokuPage.BenchPageStaysInRange | src/pages/Sudoku.tsx:454-470 | both benchmark buttons keep a page in range in range |
| SudokuPage.SortByDifficulty | src/pages/Sudoku.tsx:85-88 | a stable sort by difficulty, highest first for `desc` and lowest first for `asc`, with ties in list order |
| SudokuPage.SortedPuzzles | src/pages/Sudoku.tsx:85-92 | by difficulty the stable difficulty sort; by date the list order for `desc` and its reverse for `asc` |
| SudokuPage.PageOf | src/pages/Sudoku.tsx:95 | a page is the slice from page × size to (page + 1) × size, with JavaScript slice bounds |
| SudokuPage.Shown | src/pages/Sudoku.tsx:130-137 | a benchmark puzzle is shown when its id has an entry in the solves index or the solved-only switch is off, and, for a non-empty query, when its title or author contains the query ignoring case |
| SudokuPage.MonthNumber | src/pages/Sudoku.tsx:112-121 | a German month name gives its two-digit number, any other text `01` |
| SudokuPage.DateMatch | src/pages/Sudoku.tsx:118 | the leftmost match, at or after a position, of one or two digits, a dot, optional space, a run of month characters, optional space and four digits |
| SudokuPage.IsoDate | src/pages/Sudoku.tsx:120-123 | a match is written as year, month number and the day padded to two digits, joined by `-` |
| SudokuPage.FormatDate | src/pages/Sudoku.tsx:109-127 | `Gestern` becomes `Recent`; a text holding a date match becomes its ISO date; any other text is kept |
| PuzzleCatalog.Fields | scripts/convert-puzzles-csv.js:31 | field `idx` is the trimmed value at that position, or empty past the end of the line |
| PuzzleCatalog.Keys | scripts/convert-puzzles-csv.js:21-31 | each key is its header trimmed |
| PuzzleCatalog.RowOfKeys | scripts/convert-puzzles-csv.js:30-32 | the row has exactly the keys of the headers |
| PuzzleCatalog.RowOfLast | scripts/convert-puzzles-csv.js:30-32 | a key holds the field of its last header with that name |
| PuzzleCatalog.RowOfDistinct | scripts/convert-puzzles-csv.js:30-32 | with distinct headers each key holds its own column's field |
| PuzzleCatalog.BuildRow | scripts/convert-puzzles-csv.js:27-32 | the loop over the headers builds the row of trimmed keys and fields |
| PuzzleCatalog.FillRow | scripts/convert-puzzles-csv.js:30-32 | filling the row key by key gives the row of those keys |
| PuzzleCatalog.KeptSpec | scripts/convert-puzzles-csv.js:34-54 | a row contributes a puzzle exactly when it does not show the solution and has a name, and then only its own record |
| PuzzleCatalog.Contributions | scripts/convert-puzzles-csv.js:26-55 | there is one contribution per data line |
| PuzzleCatalog.Convert | scripts/convert-puzzles-csv.js:19-59 | the script's records are the catalog of the CSV text, and the file it writes holds them as `JSON.stringify` writes them |
| PuzzleCatalog.ConvertLines | scripts/convert-puzzles-csv.js:26-55 | the loop over the data lines gathers their contributions in order |
| PuzzleCatalog.FlattenConcat | scripts/convert-puzzles-csv.js:26-55 | the gathered list of two runs of lines is the concatenation of theirs |
| PuzzleCatalog.CatalogMembers | scripts/convert-puzzles-csv.js:26-55 | a puzzle is in the catalog exactly when some line's row is kept and gives that record |
| PuzzleCatalog.CatalogKeepsRules | scripts/convert-puzzles-csv.js:35-54 | every puzzle in the catalog has a name and is the record of a line that does not show the solution |
| PuzzleCatalog.FlattenShort | scripts/convert-puzzles-csv.js:26-55 | the catalog has at most one puzzle per data line |
| PuzzleCatalog.SolvedSplit | scripts/convert-puzzles-csv.js:61-63 | solved and unsolved puzzles add up to the total |
| PuzzleCatalog.Report | scripts/convert-puzzles-csv.js:61-63 | the summary's total is the catalog's length, split into solved and unsolved counts |
| PuzzleCatalog.CsvLinesOf | scripts/convert-puzzles-csv.js:20-21 | a written CSV has the header line followed by one line per puzzle |
| PuzzleCatalog.CatalogRoundTrip | scripts/convert-puzzles-csv.js:19-55 | converting the CSV written for a list of plain puzzles gives the list back |
| PuzzleCatalog.CsvLines | scripts/convert-puzzles-csv.js:20 | trimming and splitting a written CSV gives its lines |
| PuzzleCatalog.CsvLinesPlain | scripts/convert-puzzles-csv.js:20 | written lines hold no newline, no surrounding space and are not empty |
| PuzzleCatalog.HeaderSplit | scripts/convert-puzzles-csv.js:21 | the header line splits back into the headers |
| PuzzleCatalog.RecordsOfLines | scripts/convert-puzzles-csv.js:26-55 | the written puzzle lines convert back to the list |
| PuzzleCatalog.KeptLine | scripts/convert-puzzles-csv.js:34-54 | the row read from a puzzle's written line is kept and gives that puzzle |
| PuzzleCatalog.KeptOf | scripts/convert-puzzles-csv.js:40-54 | a row whose fields spell a named puzzle that does not show the solution gives exactly that puzzle |
| PuzzleCatalog.ReadRecord | scripts/convert-puzzles-csv.js:30-49 | each field read back from a written line is the text written for that column |
| PuzzleCatalog.ColumnFacts | scripts/convert-puzzles-csv.js:40-49 | the text written for each column reads back as the puzzle's field |
| PuzzleCatalog.ReadColumn | scripts/convert-puzzles-csv.js:30-32 | a header's key in the row read back holds its column's text, and an absent key reads as empty |
| PuzzleCatalog.LineSplit | scripts/convert-puzzles-csv.js:27 | a written line splits back into its columns |
| PuzzleCatalog.NumberRoundTrip | scripts/convert-puzzles-csv.js:45-46 | a number written in decimal (or left empty for `null`) is parsed back to itself |
| PuzzleCatalog.NumberField | scripts/convert-puzzles-csv.js:45-46 | an empty field is null; any other is what `parseInt` makes of it |
| PuzzleCatalog.Record | scripts/convert-puzzles-csv.js:40-49 | a record takes each text column, an absent one as empty, `solved` as the Solved column being `Yes`, and the two number fields |
| PuzzleCatalog.Kept | scripts/convert-puzzles-csv.js:34-54 | a row showing the solution contributes nothing; otherwise its record, when the record has a name |
| PuzzleCatalog.Catalog | scripts/convert-puzzles-csv.js:19-55 | the text is trimmed and split into lines; the first line gives the headers; every later line contributes in order |
| PuzzleCatalog.JsonNumber | scripts/convert-puzzles-csv.js:59 | `JSON.stringify` writes NaN as `null`: the written field is never NaN, it is the field itself exactly when that is not NaN, and NaN becomes null |
| PuzzleCatalog.Written | scripts/convert-puzzles-csv.js:59 | a written record holds no NaN, differs from the record only in its number fields, and equals it exactly when the record holds no NaN |
| PuzzleCatalog.WrittenAll | scripts/convert-puzzles-csv.js:59 | the file holds one written record per record, in order, none of them with NaN, and a collection without NaN is written unchanged |
| PuzzleCatalog.WrittenSolvedCount | scripts/convert-puzzles-csv.js:59-63 | the file has as many solved records as the collection the script counts |
| PuzzleCatalog.FileRoundTrip | scripts/convert-puzzles-csv.js:19-59 | the file written from the catalog of a list of plain puzzles is the list itself |
| PuzzleCollection.ShownIff | src/pages/PuzzleCollection.tsx:30-38 | a puzzle is shown exactly when it fits the solved selector and matches the search |
| PuzzleCollection.Filtered | src/pages/PuzzleCollection.tsx:30-38 | the gallery holds exactly the collection's puzzles that are shown, and no more of them |
| PuzzleCollection.FilteredRules | src/pages/PuzzleCollection.tsx:31-36 | the solved selector shows only solved puzzles, the unsolved one only unsolved ones, and a search only puzzles whose name or author contains it, ignoring case |
| PuzzleCollection.FilteredAll | src/pages/PuzzleCollection.tsx:30-38 | with all puzzles selected and no search the gallery is the whole collection |
| PuzzleCollection.FilteredOrder | src/pages/PuzzleCollection.tsx:30-38 | the gallery keeps the collection's order and filters a concatenation piece by piece |
| PuzzleCollection.Labels | src/pages/PuzzleCollection.tsx:40-81 | the selector's counts are the total and the solved and unsolved gallery sizes, which add up to it |
| PuzzleCollection.SelectorCounts | src/pages/PuzzleCollection.tsx:40-81 | the solved and unsolved selections are the solved and unsolved puzzles the heading counts |
| PuzzleCollection.SelectorSplit | src/pages/PuzzleCollection.tsx:30-38 | for any search, the solved and unsolved galleries add up to the unfiltered one |
| PuzzleCollection.GalleryOfFile | src/pages/PuzzleCollection.tsx:18-81 | the gallery read from the written file shows no NaN, and its selector labels are the counts the converter reports |
| SolvesIndex.Dedup | scripts/generate-solves-index.js:12 | the set of challenge ids holds each id once, the same ids as the list |
| SolvesIndex.ListFiles | scripts/generate-solves-index.js:16 | a missing folder lists no files; otherwise the listing as it is |
| SolvesIndex.FirstIdIn | scripts/generate-solves-index.js:23-34 | a file belongs to the first id it contains, or to none when it contains none |
| SolvesIndex.FirstIdAt | scripts/generate-solves-index.js:23-34 | the id found is the first in the set's order that the file contains |
| SolvesIndex.FirstIdDedup | scripts/generate-solves-index.js:12-23 | searching the set finds the same id as searching the list |
| SolvesIndex.SuffixesExclusive | scripts/generate-solves-index.js:29-33 | no file ends in both `.replay` and `.gif` |
| SolvesIndex.IndexOfSnoc | scripts/generate-solves-index.js:21-37 | one more file is one more step of the outer loop |
| SolvesIndex.BuildIndex | scripts/generate-solves-index.js:19-37 | the loops build the index of the files, step by step |
| SolvesIndex.GenerateIndex | scripts/generate-solves-index.js:12-43 | the index is built from the listing (empty when the folder is missing) and the ids; the solve count is its number of keys, at most the number of ids |
| SolvesIndex.IndexKeys | scripts/generate-solves-index.js:25-27 | an id has an entry exactly when some file belongs to it |
| SolvesIndex.IndexKeysInIds | scripts/generate-solves-index.js:23-27 | every key of the index is a challenge id |
| SolvesIndex.IndexKeysBound | scripts/generate-solves-index.js:43 | there are no more entries than ids |
| SolvesIndex.LastFile | scripts/generate-solves-index.js:29-33 | the file recorded for a suffix is one of the listing, belongs to that id and has that suffix |
| SolvesIndex.IndexEntries | scripts/generate-solves-index.js:25-33 | an entry holds the last replay and the last gif of its id, each absent when there is none |
| SolvesIndex.NoEntryNoFile | scripts/generate-solves-index.js:25-33 | an id without entry has no attributed file |
| SolvesIndex.BareFileEntry | scripts/generate-solves-index.js:25-27 | a file with neither suffix still creates an empty entry for its id |
| SolvesIndex.LaterFileWins | scripts/generate-solves-index.js:29-33 | a later replay or gif file replaces the earlier one of its id and keeps the other field |
| SolvesIndex.UnmatchedIgnored | scripts/generate-solves-index.js:21-37 | files that belong to no id change nothing |
| SolvesIndex.Stored | scripts/generate-solves-index.js:29-33 | a `.replay` file becomes the entry's replay, a `.gif` file its gif, any other file leaves it as it is |
| SolvesIndex.Step | scripts/generate-solves-index.js:22-36 | a file whose name holds no id leaves the index unchanged; otherwise it is stored in the entry of the first id it holds, created empty when missing |
| SolvesIndex.IndexOf | scripts/generate-solves-index.js:19-37 | the index starts empty and the files are taken in order |
| BlogPosts.LastSegment | src/hooks/useBlogPosts.ts:19 | the last segment holds no `/` |
| BlogPosts.SlugOf | src/hooks/useBlogPosts.ts:19 | a slug holds no `/` |
| BlogPosts.OrString | src/hooks/useBlogPosts.ts:24-26 | the or-default is the default itself or a given non-empty string |
| BlogPosts.MetaOf | src/hooks/useBlogPosts.ts:18-28 | a post's slug comes from its path |
| BlogPosts.AllPosts | src/hooks/useBlogPosts.ts:17-29 | one metadata entry per post file, in the glob's order |
| BlogPosts.MetaDefaults | src/hooks/useBlogPosts.ts:20-27 | missing frontmatter gives the slug as title, empty date and description and no tags; an empty title falls back to the slug |
| BlogPosts.FindPath | src/hooks/useBlogPosts.ts:36 | the path found is the first that ends with `/slug.mdx`, or none when no path does |
| BlogPosts.PostBySlug | src/hooks/useBlogPosts.ts:35-47 | a post is returned exactly when some path ends with `/slug.mdx`, and it is the first such file's component and frontmatter (`{}` when missing) |
| BlogPosts.PostWithoutFrontmatter | src/hooks/useBlogPosts.ts:42 | a found post without frontmatter comes with `{}` |
| BlogPosts.FirstPathAt | src/hooks/useBlogPosts.ts:36 | the first matching path is the one found |
| BlogPosts.LastSegmentOf | src/hooks/useBlogPosts.ts:19 | the last segment of `dir/name` is `name` |
| BlogPosts.SlugOfPostFile | src/hooks/useBlogPosts.ts:19-36 | the post file `dir/name.mdx` has the slug `name` |
| BlogPosts.ListedPostsFound | src/hooks/useBlogPosts.ts:17-47 | every listed post of that form is found again by its slug |

## Left out

- `Math.random()`: the model takes a sequence of draws, and `Random.FloorTimes` reads a draw directly as an index below the bound. Every index is reachable, but the distribution of the draws is not modelled. The draws are finite: the Black & White row drawing (`BlackWhiteGen.DrawRows`) also stops when they run out, whereas the loop at src/components/games/BlackWhiteGame.tsx:115-117 draws until it has enough distinct rows.
- `Date.now()` and `new Date()`: the clock is a parameter (saved-game timestamps, generated puzzle ids).
- The colour strings: `generateColor` in src/components/games/ConnectWordsGame.tsx:21-24 and src/data/connectwords/puzzleGenerator.ts:96-99 compute HSL hues with floating point. The model keeps the colour symbolic (`GroupHue`, `ClusterHue`), so equal colours are equal inputs.
- `localStorage`, `JSON.parse` and `JSON.stringify`: storage is a parameter, namely the stored text already parsed, or nothing when it is missing or does not parse. Writing it back is recorded as the value stored. The one place where writing changes a value, NaN becoming `null` in the puzzle collection file, is modelled by `PuzzleCatalog.Written`.
- `LZString.decompressFromBase64` is a foreign library. It is a function parameter of the f-puzzles decoder.
- `fetch`, `fs`, `process.exit` and `console.log` in the two build scripts: the CSV text, the directory listing and the challenge ids are inputs. The JSON written is a returned value: the solves index itself, and for the puzzle collection the records after `JSON.stringify` (`PuzzleCatalog.WrittenAll`).
- JavaScript numbers are modelled as unbounded integers. NaN is kept only where `parseInt` produces it. Non-integer numbers (a fractional YouTube `start`, a fractional difficulty level) are not modelled.
- Strings are sequences of Unicode characters. JavaScript's `length` counts UTF-16 units, so the 11-character YouTube id test and the 100-character SudokuGrid test differ for text outside the Basic Multilingual Plane.
- `toLowerCase` is modelled on ASCII letters only.
- Blog frontmatter values of other types: the `as string` and `as string[]` casts in src/hooks/useBlogPosts.ts:24-27 check nothing, so a numeric title, a YAML date or a single-string `tags` would be kept as it is. The model assumes every frontmatter field has its declared type.
- Lookups in object literals (the German month table, the index objects) do not model keys inherited from `Object.prototype` such as `constructor`.
- `Math.sqrt` in SudokuGrid is modelled only for perfect squares. For any other size, the floating-point root never divides a column index, which the model reflects by drawing no thick borders.
- The React plumbing is not modelled:
  - `useState` and `useEffect` wiring;
  - the timeouts that clear messages;
  - the Escape key and the expanded mode;
  - the theme, the GIF overlay, JSX, CSS classes and SVG coordinates.
- The blog list's sort by date (src/hooks/useBlogPosts.ts:32) and `toLocaleDateString` depend on `Date` parsing and the locale. `BlogPosts.AllPosts` keeps the glob's order.
- scripts/copy-sudokupad.py and src/pages/ConnectWords.tsx are not part of this model. They hold file copying and page wiring respectively.
- PuzzleGenerator.GeneratedSize: the exact count of n groups is stated only when at most n required lists are found. The other case is `PuzzleGenerator.GeneratedOverfull`.
- BlogPosts.SlugOfPostFile: stated only for a file name without an earlier `.mdx`. Otherwise `replace` removes that earlier occurrence, as `BlogPosts.SlugOf` models.
- SudokuPage.DifficultyStars: a level outside 0 to 5 makes `repeat` throw. The model returns no value there instead of an exception.

## Findings

| source | as written | input that shows it | evidently intended | confidence | as-written member | corrected member |
|---|---|---|---|---|---|---|
| src/pages/Sudoku.tsx:118 | the month group `(\w+)` matches only ASCII word characters, so `März`, which is in the table at line 113, is never matched and such a date is shown unchanged | `5. März 2024` | `2024-03-05`, as for every other month in the table | not executed | SudokuPage.MarchAsWritten | SudokuPage.MarchIntended |
