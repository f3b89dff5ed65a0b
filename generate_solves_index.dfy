/** The solves index generator (scripts/generate-solves-index.js): every
    file of the solves folder is attributed to the first challenge puzzle id
    its name contains, and the index records, per id, the last `.replay` and
    the last `.gif` file attributed to it. */
module SolvesIndex {
  import opened Common

  /** One index entry: `{ replay?, gif? }`. */
  datatype SolveData = SolveData(replay: Option<string>, gif: Option<string>)

  type Index = map<string, SolveData>

  /** `new Set(ids)`: the ids in the order of their first occurrence, each
      once. */
  function Dedup(ids: seq<string>): (r: seq<string>)
    ensures Distinct(r)
    ensures forall x :: x in r <==> x in ids
  {
    if ids == [] then []
    else
      var d := Dedup(ids[..|ids| - 1]);
      var x := ids[|ids| - 1];
      if x in d then d else d + [x]
  }

  /** `fs.existsSync(dir) ? fs.readdirSync(dir) : []`, with the listing
      given: `None` when the folder does not exist. */
  function ListFiles(listing: Option<seq<string>>): (r: seq<string>)
    ensures listing.None? ==> r == []
    ensures listing.Some? ==> r == listing.value
  {
    match listing
    case None => []
    case Some(files) => files
  }

  /** The id a file is attributed to: the first of `ids` that its name
      contains, or none. */
  function FirstIdIn(file: string, ids: seq<string>): (r: Option<string>)
    ensures r.None? <==> forall k :: 0 <= k < |ids| ==> !Includes(file, ids[k])
    ensures r.Some? ==> r.value in ids && Includes(file, r.value)
  {
    if ids == [] then None
    else
      var r := FirstIdIn(file, ids[..|ids| - 1]);
      if r.Some? then r
      else if Includes(file, ids[|ids| - 1]) then Some(ids[|ids| - 1])
      else None
  }

  /** The first id, in list order, that the name contains is the one chosen. */
  lemma {:induction false} FirstIdAt(file: string, ids: seq<string>, j: nat)
    requires j < |ids| && Includes(file, ids[j])
    requires forall k :: 0 <= k < j ==> !Includes(file, ids[k])
    ensures FirstIdIn(file, ids) == Some(ids[j])
    decreases |ids|
  {
    if j < |ids| - 1 {
      var init := ids[..|ids| - 1];
      assert init[j] == ids[j];
      FirstIdAt(file, init, j);
    } else {
      var init := ids[..|ids| - 1];
      assert forall k :: 0 <= k < |init| ==> init[k] == ids[k];
    }
  }

  /** Iterating the set instead of the list attributes every file the same
      way: a repeated id can never be the first match. */
  lemma {:induction false} FirstIdDedup(file: string, ids: seq<string>)
    ensures FirstIdIn(file, Dedup(ids)) == FirstIdIn(file, ids)
    decreases |ids|
  {
    if ids != [] {
      var init := ids[..|ids| - 1];
      var x := ids[|ids| - 1];
      var d := Dedup(init);
      FirstIdDedup(file, init);
      if x !in d {
        assert (d + [x])[..|d|] == d;
      }
    }
  }

  /** `file.endsWith('.replay')` and `file.endsWith('.gif')` exclude each
      other: the suffixes end in different letters. */
  lemma SuffixesExclusive(file: string)
    ensures !(EndsWith(file, ".replay") && EndsWith(file, ".gif"))
  {
    if EndsWith(file, ".replay") {
      assert file[|file| - 1] == ".replay"[6] == 'y';
      assert !EndsWith(file, ".gif") by {
        if |file| >= 4 {
          assert file[|file| - 4..][3] == 'y' != ".gif"[3];
        }
      }
    }
  }

  /** What one attributed file does to its entry (lines 29-33). */
  function Stored(e: SolveData, file: string): SolveData
  {
    if EndsWith(file, ".replay") then e.(replay := Some(file))
    else if EndsWith(file, ".gif") then e.(gif := Some(file))
    else e
  }

  /** The entry of `id`, an empty one when there is none yet (lines 25-27). */
  function EntryOf(index: Index, id: string): SolveData
  {
    if id in index then index[id] else SolveData(None, None)
  }

  /** What one file does to the index (lines 23-36): nothing when its name
      contains no id, otherwise it is stored in the entry of the first id it
      contains. */
  function Step(index: Index, file: string, ids: seq<string>): Index
  {
    match FirstIdIn(file, ids)
    case None => index
    case Some(id) => index[id := Stored(EntryOf(index, id), file)]
  }

  /** The index after the files in order. */
  function IndexOf(files: seq<string>, ids: seq<string>): Index
  {
    if files == [] then map[]
    else Step(IndexOf(files[..|files| - 1], ids), files[|files| - 1], ids)
  }

  lemma IndexOfSnoc(files: seq<string>, file: string, ids: seq<string>)
    ensures IndexOf(files + [file], ids) == Step(IndexOf(files, ids), file, ids)
  {
    assert (files + [file])[..|files|] == files;
  }

  /** The script's loops: for each file, the ids in order until the first
      one the name contains, whose entry is created when missing and then
      given the file by its suffix. */
  method BuildIndex(files: seq<string>, ids: seq<string>) returns (index: Index)
    ensures index == IndexOf(files, ids)
  {
    index := map[];
    for i := 0 to |files|
      invariant index == IndexOf(files[..i], ids)
    {
      var file := files[i];
      assert files[..i + 1] == files[..i] + [file];
      IndexOfSnoc(files[..i], file, ids);
      ghost var next := Step(index, file, ids);
      var j := 0;
      while j < |ids|
        invariant j <= |ids| && index == IndexOf(files[..i], ids)
        invariant forall k :: 0 <= k < j ==> !Includes(file, ids[k])
      {
        var id := ids[j];
        if Includes(file, id) {
          FirstIdAt(file, ids, j);
          if id !in index {
            index := index[id := SolveData(None, None)];
          }
          if EndsWith(file, ".replay") {
            index := index[id := index[id].(replay := Some(file))];
          } else if EndsWith(file, ".gif") {
            index := index[id := index[id].(gif := Some(file))];
          }
          assert index == next;
          break;
        }
        j := j + 1;
      }
      assert index == next;
    }
    assert files[..|files|] == files;
  }

  /** The whole script: the challenge ids as a set, the folder listing, the
      index and the count it reports (line 43). */
  method GenerateIndex(challengeIds: seq<string>, listing: Option<seq<string>>)
    returns (index: Index, solveCount: nat)
    ensures index == IndexOf(ListFiles(listing), Dedup(challengeIds))
    ensures solveCount == |index.Keys| <= |Dedup(challengeIds)|
    ensures listing.None? ==> index == map[]
  {
    var puzzleIds := Dedup(challengeIds);
    index := BuildIndex(ListFiles(listing), puzzleIds);
    IndexKeysBound(ListFiles(listing), puzzleIds);
    solveCount := |index.Keys|;
  }

  // ---------------------------------------------------------------------------
  // What the index holds

  /** An id has an entry exactly when some file is attributed to it. */
  lemma {:induction false} IndexKeys(files: seq<string>, ids: seq<string>, id: string)
    ensures id in IndexOf(files, ids) <==> exists i :: 0 <= i < |files| && FirstIdIn(files[i], ids) == Some(id)
    decreases |files|
  {
    if files != [] {
      var init := files[..|files| - 1];
      IndexKeys(init, ids, id);
      assert forall i :: 0 <= i < |init| ==> init[i] == files[i];
      if exists i :: 0 <= i < |files| && FirstIdIn(files[i], ids) == Some(id) {
        var i :| 0 <= i < |files| && FirstIdIn(files[i], ids) == Some(id);
        if i < |init| {
          assert FirstIdIn(init[i], ids) == Some(id);
        }
      }
    }
  }

  /** Only ids of the challenge list become keys. */
  lemma IndexKeysInIds(files: seq<string>, ids: seq<string>)
    ensures forall id :: id in IndexOf(files, ids) ==> id in ids
  {
    forall id | id in IndexOf(files, ids)
      ensures id in ids
    {
      IndexKeys(files, ids, id);
    }
  }

  /** So the reported count is at most the number of distinct ids. */
  lemma IndexKeysBound(files: seq<string>, ids: seq<string>)
    requires Distinct(ids)
    ensures |IndexOf(files, ids).Keys| <= |ids|
  {
    IndexKeysInIds(files, ids);
    DistinctElements(ids);
    assert IndexOf(files, ids).Keys <= Elements(ids);
    SubsetCard(IndexOf(files, ids).Keys, Elements(ids));
  }

  lemma {:induction false} SubsetCard<T>(a: set<T>, b: set<T>)
    requires a <= b
    ensures |a| <= |b|
    decreases |b|
  {
    if a != {} {
      var x :| x in a;
      SubsetCard(a - {x}, b - {x});
    }
  }

  /** The last file among `files` attributed to `id` and ending in `suffix`. */
  function LastFile(files: seq<string>, ids: seq<string>, id: string, suffix: string): (r: Option<string>)
    ensures r.Some? ==> r.value in files && FirstIdIn(r.value, ids) == Some(id) && EndsWith(r.value, suffix)
  {
    if files == [] then None
    else
      var file := files[|files| - 1];
      if FirstIdIn(file, ids) == Some(id) && EndsWith(file, suffix) then Some(file)
      else LastFile(files[..|files| - 1], ids, id, suffix)
  }

  /** Each entry holds the last `.replay` and the last `.gif` file
      attributed to its id: a later file overwrites an earlier one. */
  lemma {:induction false} IndexEntries(files: seq<string>, ids: seq<string>, id: string)
    requires id in IndexOf(files, ids)
    ensures IndexOf(files, ids)[id]
         == SolveData(LastFile(files, ids, id, ".replay"), LastFile(files, ids, id, ".gif"))
    decreases |files|
  {
    var init := files[..|files| - 1];
    var file := files[|files| - 1];
    SuffixesExclusive(file);
    if id in IndexOf(init, ids) {
      IndexEntries(init, ids, id);
    } else {
      NoEntryNoFile(init, ids, id, ".replay");
      NoEntryNoFile(init, ids, id, ".gif");
    }
  }

  /** No entry means no attributed file of any suffix. */
  lemma NoEntryNoFile(files: seq<string>, ids: seq<string>, id: string, suffix: string)
    requires id !in IndexOf(files, ids)
    ensures LastFile(files, ids, id, suffix) == None
  {
    var r := LastFile(files, ids, id, suffix);
    if r.Some? {
      var i :| 0 <= i < |files| && files[i] == r.value;
      IndexKeys(files, ids, id);
    }
  }

  /** A file attributed to an id but with neither suffix still gives that
      id an entry, an empty one when no other file fills it. */
  lemma BareFileEntry(files: seq<string>, ids: seq<string>, file: string, id: string)
    requires FirstIdIn(file, ids) == Some(id)
    requires !EndsWith(file, ".replay") && !EndsWith(file, ".gif")
    ensures id in IndexOf(files + [file], ids)
    ensures id !in IndexOf(files, ids) ==> IndexOf(files + [file], ids)[id] == SolveData(None, None)
  {
    assert (files + [file])[..|files|] == files;
  }

  /** The last file wins: a file attributed to `id` sets the field of its
      suffix and leaves the other one as it was. */
  lemma LaterFileWins(files: seq<string>, file: string, ids: seq<string>, id: string)
    requires FirstIdIn(file, ids) == Some(id)
    ensures var before, after := EntryOf(IndexOf(files, ids), id), IndexOf(files + [file], ids)[id];
      && (EndsWith(file, ".replay") ==> after == before.(replay := Some(file)))
      && (EndsWith(file, ".gif") ==> after == before.(gif := Some(file)))
  {
    IndexOfSnoc(files, file, ids);
    SuffixesExclusive(file);
  }

  /** Files attributed to no id leave the index as it is, wherever they
      appear in the listing. */
  lemma {:induction false} UnmatchedIgnored(files: seq<string>, ids: seq<string>)
    ensures IndexOf(files, ids) == IndexOf(Filter(files, Attributed(ids)), ids)
    decreases |files|
  {
    if files != [] {
      var init := files[..|files| - 1];
      var file := files[|files| - 1];
      assert files == init + [file];
      FilterConcat(init, [file], Attributed(ids));
      UnmatchedIgnored(init, ids);
      var kept := Filter(init, Attributed(ids));
      if Attributed(ids)(file) {
        assert Filter([file], Attributed(ids)) == [file];
        IndexOfSnoc(kept, file, ids);
      } else {
        assert Filter([file], Attributed(ids)) == [];
        assert Filter(files, Attributed(ids)) == kept;
      }
    }
  }

  function Attributed(ids: seq<string>): string -> bool
  {
    (file: string) => FirstIdIn(file, ids).Some?
  }
}
