/** The puzzle generator (src/data/connectwords/puzzleGenerator.ts): a
    database of curated word lists, the lists long enough for an n×n
    puzzle, database statistics, and `generatePuzzle`, which picks n lists
    and n words of each. The bundled database file is data, so the lists are
    a parameter here; `Date.now()` is the parameter `now`. */
module PuzzleGenerator {
  import opened Common
  import opened Random
  import opened FisherYates
  import opened Puzzles

  datatype ListItem = ListItem(id: string, name: string, items: seq<string>, count: Option<nat>)

  datatype ListsDatabase = ListsDatabase(generated: string, description: string, lists: seq<ListItem>)

  /** No two lists share an id. */
  predicate UniqueIds(s: seq<ListItem>)
  {
    forall i, j :: 0 <= i < j < |s| ==> s[i].id != s[j].id
  }

  // ---------------------------------------------------------------------------
  // getEligibleLists

  function HasAtLeast(minItems: int): ListItem -> bool
  {
    (l: ListItem) => |l.items| >= minItems
  }

  /** `getEligibleLists(minItems)`: the lists with at least `minItems` items,
      in database order. */
  function EligibleLists(lists: seq<ListItem>, minItems: int): (r: seq<ListItem>)
    ensures forall i :: 0 <= i < |r| ==> r[i] in lists && |r[i].items| >= minItems
    ensures forall i :: 0 <= i < |lists| && |lists[i].items| >= minItems ==> lists[i] in r
  {
    Filter(lists, HasAtLeast(minItems))
  }

  /** Asking for more items only narrows the eligible lists: the lists
      eligible for `m2 >= m1` are those eligible for `m1` that also have `m2`
      items. */
  lemma {:induction false} EligibleNarrows(lists: seq<ListItem>, m1: int, m2: int)
    requires m1 <= m2
    ensures EligibleLists(lists, m2) == Filter(EligibleLists(lists, m1), HasAtLeast(m2))
    ensures |EligibleLists(lists, m2)| <= |EligibleLists(lists, m1)|
  {
    if lists != [] {
      EligibleNarrows(lists[1..], m1, m2);
      var head := if HasAtLeast(m1)(lists[0]) then [lists[0]] else [];
      assert EligibleLists(lists, m1) == head + EligibleLists(lists[1..], m1);
      FilterConcat(head, EligibleLists(lists[1..], m1), HasAtLeast(m2));
    }
  }

  // ---------------------------------------------------------------------------
  // getDbStats

  function TotalItems(lists: seq<ListItem>): nat
  {
    if lists == [] then 0 else |lists[0].items| + TotalItems(lists[1..])
  }

  /** `counts[0]` after the ascending sort: the smallest list length, or
      `undefined` for an empty database. */
  function MinCount(lists: seq<ListItem>): (r: Option<nat>)
    ensures r.None? <==> lists == []
    ensures r.Some? ==> (forall i :: 0 <= i < |lists| ==> r.value <= |lists[i].items|)
                        && exists i :: 0 <= i < |lists| && r.value == |lists[i].items|
  {
    if lists == [] then None
    else match MinCount(lists[1..])
      case None => Some(|lists[0].items|)
      case Some(m) => Some(if |lists[0].items| <= m then |lists[0].items| else m)
  }

  /** `counts[counts.length - 1]` after the ascending sort: the largest list
      length, or `undefined` for an empty database. */
  function MaxCount(lists: seq<ListItem>): (r: Option<nat>)
    ensures r.None? <==> lists == []
    ensures r.Some? ==> (forall i :: 0 <= i < |lists| ==> |lists[i].items| <= r.value)
                        && exists i :: 0 <= i < |lists| && r.value == |lists[i].items|
  {
    if lists == [] then None
    else match MaxCount(lists[1..])
      case None => Some(|lists[0].items|)
      case Some(m) => Some(if |lists[0].items| >= m then |lists[0].items| else m)
  }

  /** `Math.round(total / count)` for natural numbers: the nearest integer,
      halves rounded up; `NaN` when `count` is 0. */
  function RoundedAverage(total: nat, count: nat): (r: Option<nat>)
    ensures r.None? <==> count == 0
  {
    if count == 0 then None else Some((2 * total + count) / (2 * count))
  }

  /** The rounded average is within half a unit of the exact one. */
  lemma RoundedAverageNearest(total: nat, count: nat)
    requires count > 0
    ensures 2 * count * RoundedAverage(total, count).value <= 2 * total + count
    ensures 2 * total + count < 2 * count * (RoundedAverage(total, count).value + 1)
  {
    var d := 2 * count;
    var q := (2 * total + count) / d;
    var m := (2 * total + count) % d;
    assert 2 * total + count == d * q + m && 0 <= m < d;
  }

  datatype Stats = Stats(min: Option<nat>, max: Option<nat>, avg: Option<nat>)

  datatype DbStats = DbStats(totalLists: nat, totalItems: nat, generated: string, stats: Stats, availableFor: map<nat, nat>)

  /** The sizes `getDbStats` reports the eligible-list count for. */
  const StatSizes: set<nat> := {5, 6, 7, 8, 10, 12, 15, 20, 25}

  /** `getDbStats()`. */
  function GetDbStats(db: ListsDatabase): (r: DbStats)
    ensures r.totalLists == |db.lists| && r.totalItems == TotalItems(db.lists)
    ensures r.generated == db.generated
    ensures r.stats.min == MinCount(db.lists) && r.stats.max == MaxCount(db.lists)
    ensures r.stats.avg == RoundedAverage(TotalItems(db.lists), |db.lists|)
    ensures r.availableFor.Keys == StatSizes
    ensures forall k :: k in r.availableFor ==> r.availableFor[k] == |EligibleLists(db.lists, k)|
  {
    var total := TotalItems(db.lists);
    DbStats(|db.lists|, total, db.generated,
      Stats(MinCount(db.lists), MaxCount(db.lists), RoundedAverage(total, |db.lists|)),
      map k | k in StatSizes :: |EligibleLists(db.lists, k)|)
  }

  /** The eligible counts `getDbStats` reports shrink as the size grows. */
  lemma AvailableForDecreasing(db: ListsDatabase, a: nat, b: nat)
    requires a in StatSizes && b in StatSizes && a <= b
    ensures GetDbStats(db).availableFor[b] <= GetDbStats(db).availableFor[a]
  {
    EligibleNarrows(db.lists, a, b);
  }

  // ---------------------------------------------------------------------------
  // getAvailableLists

  datatype ListSummary = ListSummary(id: string, name: string, count: nat)

  /** `getAvailableLists()`: id, name and item count of every list, in order. */
  function GetAvailableLists(lists: seq<ListItem>): (r: seq<ListSummary>)
    ensures |r| == |lists|
    ensures forall i :: 0 <= i < |r| ==> r[i] == ListSummary(lists[i].id, lists[i].name, |lists[i].items|)
  {
    seq(|lists|, i requires 0 <= i < |lists| => ListSummary(lists[i].id, lists[i].name, |lists[i].items|))
  }

  function SummaryTotal(s: seq<ListSummary>): nat
  {
    if s == [] then 0 else s[0].count + SummaryTotal(s[1..])
  }

  /** The counts of the summary add up to the `totalItems` of the statistics. */
  lemma {:induction false} AvailableListsTotal(lists: seq<ListItem>)
    ensures SummaryTotal(GetAvailableLists(lists)) == TotalItems(lists)
  {
    if lists != [] {
      AvailableListsTotal(lists[1..]);
      assert GetAvailableLists(lists)[1..] == GetAvailableLists(lists[1..]);
    }
  }

  // ---------------------------------------------------------------------------
  // generatePuzzle: the required lists

  function LacksId(id: string): ListItem -> bool
  {
    (l: ListItem) => l.id != id
  }

  function NotExcluded(ex: seq<string>): ListItem -> bool
  {
    (l: ListItem) => l.id !in ex
  }

  /** `eligible.find(l => l.id === id)`. */
  function Find(s: seq<ListItem>, id: string): (r: Option<ListItem>)
    ensures r.None? <==> forall i :: 0 <= i < |s| ==> s[i].id != id
    ensures r.Some? ==> r.value in s && r.value.id == id
  {
    if s == [] then None else if s[0].id == id then Some(s[0]) else Find(s[1..], id)
  }

  /** The lists picked so far and the eligible lists still left. */
  datatype Pick = Pick(selected: seq<ListItem>, rest: seq<ListItem>)

  /** One round of the `includeIds` loop. */
  function PickStep(p: Pick, id: string): Pick
  {
    match Find(p.rest, id)
    case Some(l) => Pick(p.selected + [l], Filter(p.rest, LacksId(id)))
    case None => p
  }

  /** The `includeIds` loop over `ids`, starting from `eligible`. */
  function PickIncluded(eligible: seq<ListItem>, ids: seq<string>): Pick
    decreases |ids|
  {
    if ids == [] then Pick([], eligible)
    else PickStep(PickIncluded(eligible, ids[..|ids| - 1]), ids[|ids| - 1])
  }

  lemma FilterDropsFailing(s: seq<ListItem>, p: ListItem -> bool, x: ListItem)
    requires x in s && !p(x)
    ensures multiset(Filter(s, p)) + multiset{x} <= multiset(s)
    decreases |s|
  {
    assert s == [s[0]] + s[1..];
    if s[0] != x {
      FilterDropsFailing(s[1..], p, x);
    }
  }

  /** The picked and the remaining lists are drawn from `eligible` without
      repetition; no remaining list carries a processed id; every picked list
      carries one of the ids, and there are at most as many as ids. */
  lemma PickSound(eligible: seq<ListItem>, ids: seq<string>)
    ensures multiset(PickIncluded(eligible, ids).selected) + multiset(PickIncluded(eligible, ids).rest) <= multiset(eligible)
    ensures forall i :: 0 <= i < |PickIncluded(eligible, ids).rest| ==> PickIncluded(eligible, ids).rest[i].id !in ids
    ensures forall i :: 0 <= i < |PickIncluded(eligible, ids).selected| ==> PickIncluded(eligible, ids).selected[i].id in ids
    ensures |PickIncluded(eligible, ids).selected| <= |ids|
  {
    PickApart(eligible, ids);
    PickClears(eligible, ids);
    PickCarries(eligible, ids);
    PickAtMostIds(eligible, ids);
  }

  lemma {:induction false} PickApart(eligible: seq<ListItem>, ids: seq<string>)
    ensures multiset(PickIncluded(eligible, ids).selected) + multiset(PickIncluded(eligible, ids).rest) <= multiset(eligible)
    decreases |ids|
  {
    if ids != [] {
      PickApart(eligible, ids[..|ids| - 1]);
      PickStepSound(PickIncluded(eligible, ids[..|ids| - 1]), ids[|ids| - 1]);
    }
  }

  lemma {:induction false} PickClears(eligible: seq<ListItem>, ids: seq<string>)
    ensures forall i :: 0 <= i < |PickIncluded(eligible, ids).rest| ==> PickIncluded(eligible, ids).rest[i].id !in ids
    decreases |ids|
  {
    if ids != [] {
      var init := ids[..|ids| - 1];
      PickClears(eligible, init);
      PickStepSound(PickIncluded(eligible, init), ids[|ids| - 1]);
      assert ids == init + [ids[|ids| - 1]];
    }
  }

  lemma {:induction false} PickCarries(eligible: seq<ListItem>, ids: seq<string>)
    ensures forall i :: 0 <= i < |PickIncluded(eligible, ids).selected| ==> PickIncluded(eligible, ids).selected[i].id in ids
    decreases |ids|
  {
    if ids != [] {
      var init := ids[..|ids| - 1];
      var p := PickIncluded(eligible, init);
      PickCarries(eligible, init);
      PickStepSound(p, ids[|ids| - 1]);
      assert ids == init + [ids[|ids| - 1]];
      var sel := PickStep(p, ids[|ids| - 1]).selected;
      forall i | 0 <= i < |sel|
        ensures sel[i].id in ids
      {
        if i < |p.selected| {
          assert sel[i] == sel[..|p.selected|][i];
        }
      }
    }
  }

  /** One round keeps the lists apart, clears `id` from the rest and picks
      at most one list, which carries `id`. */
  lemma PickStepSound(p: Pick, id: string)
    ensures multiset(PickStep(p, id).selected) + multiset(PickStep(p, id).rest) <= multiset(p.selected) + multiset(p.rest)
    ensures forall i :: 0 <= i < |PickStep(p, id).rest| ==> PickStep(p, id).rest[i] in p.rest && PickStep(p, id).rest[i].id != id
    ensures PickStep(p, id).selected == p.selected
         || (|PickStep(p, id).selected| == |p.selected| + 1
             && PickStep(p, id).selected[..|p.selected|] == p.selected
             && PickStep(p, id).selected[|p.selected|].id == id)
  {
    match Find(p.rest, id)
    case Some(l) =>
      FilterDropsFailing(p.rest, LacksId(id), l);
      assert multiset(p.selected + [l]) == multiset(p.selected) + multiset{l};
      assert (p.selected + [l])[..|p.selected|] == p.selected;
    case None =>
  }

  /** Every list of `eligible` either remains or carries a processed id. */
  lemma {:induction false} PickKeeps(eligible: seq<ListItem>, ids: seq<string>, l: ListItem)
    requires l in eligible
    ensures l in PickIncluded(eligible, ids).rest || l.id in ids
    decreases |ids|
  {
    if ids != [] {
      var init := ids[..|ids| - 1];
      PickKeeps(eligible, init, l);
      assert forall x :: x in init ==> x in ids;
    }
  }

  /** Every id that names an eligible list ends up picked. */
  lemma {:induction false} PickComplete(eligible: seq<ListItem>, ids: seq<string>, k: nat, l: ListItem)
    requires k < |ids| && l in eligible && l.id == ids[k]
    ensures exists i :: 0 <= i < |PickIncluded(eligible, ids).selected| && PickIncluded(eligible, ids).selected[i].id == ids[k]
    decreases |ids|
  {
    var init := ids[..|ids| - 1];
    var id := ids[|ids| - 1];
    var p := PickIncluded(eligible, init);
    var q := PickIncluded(eligible, ids);
    assert q == PickStep(p, id);
    assert forall i :: 0 <= i < |p.selected| ==> p.selected[i] == q.selected[i];
    if k < |ids| - 1 {
      PickComplete(eligible, init, k, l);
    } else {
      PickKeeps(eligible, init, l);
      if l in p.rest {
        assert q.selected[|q.selected| - 1].id == id;
      } else {
        var j :| 0 <= j < |init| && init[j] == l.id;
        PickComplete(eligible, init, j, l);
      }
    }
  }

  lemma {:induction false} FilterKeepsUnique(s: seq<ListItem>, p: ListItem -> bool)
    requires UniqueIds(s)
    ensures UniqueIds(Filter(s, p))
  {
    if s != [] {
      FilterKeepsUnique(s[1..], p);
      assert forall i :: 0 <= i < |Filter(s[1..], p)| ==> Filter(s[1..], p)[i] in s[1..];
    }
  }

  /** With unique ids, dropping an id that occurs removes exactly one list. */
  lemma {:induction false} FilterOutUnique(s: seq<ListItem>, id: string)
    requires UniqueIds(s) && exists i :: 0 <= i < |s| && s[i].id == id
    ensures |Filter(s, LacksId(id))| == |s| - 1
  {
    if s[0].id == id {
      assert forall i :: 0 <= i < |s[1..]| ==> LacksId(id)(s[1..][i]);
      FilterAll(s[1..], LacksId(id));
    } else {
      FilterOutUnique(s[1..], id);
    }
  }

  /** With unique ids, each picked list leaves the remaining lists one shorter. */
  lemma {:induction false} PickCounts(eligible: seq<ListItem>, ids: seq<string>)
    requires UniqueIds(eligible)
    ensures UniqueIds(PickIncluded(eligible, ids).rest)
    ensures |PickIncluded(eligible, ids).selected| + |PickIncluded(eligible, ids).rest| == |eligible|
    decreases |ids|
  {
    if ids != [] {
      var init := ids[..|ids| - 1];
      var id := ids[|ids| - 1];
      PickCounts(eligible, init);
      var p := PickIncluded(eligible, init);
      match Find(p.rest, id)
      case Some(l) =>
        FilterOutUnique(p.rest, id);
        FilterKeepsUnique(p.rest, LacksId(id));
      case None =>
    }
  }

  // ---------------------------------------------------------------------------
  // generatePuzzle: the result

  /** The eligible lists once the excluded ids are filtered out. */
  function Candidates(lists: seq<ListItem>, n: nat, excludeIds: seq<string>): seq<ListItem>
  {
    var eligible := EligibleLists(lists, n);
    if |excludeIds| > 0 then Filter(eligible, NotExcluded(excludeIds)) else eligible
  }

  /** A list is a candidate exactly when it has `n` items and is not excluded. */
  lemma CandidatesIff(lists: seq<ListItem>, n: nat, excludeIds: seq<string>, l: ListItem)
    ensures l in Candidates(lists, n, excludeIds) <==> l in lists && |l.items| >= n && l.id !in excludeIds
  {
    var c := Candidates(lists, n, excludeIds);
    var e := EligibleLists(lists, n);
    if l in lists && |l.items| >= n && l.id !in excludeIds {
      var i :| 0 <= i < |lists| && lists[i] == l;
      assert l in e;
      if |excludeIds| > 0 {
        var j :| 0 <= j < |e| && e[j] == l;
        assert NotExcluded(excludeIds)(e[j]);
      }
    }
    if l in c {
      if |excludeIds| > 0 {
        var j :| 0 <= j < |c| && c[j] == l;
        assert NotExcluded(excludeIds)(c[j]);
      }
    }
  }

  function Title(n: nat): string
  {
    "Generated Puzzle (" + NatToString(n) + "×" + NatToString(n) + ")"
  }

  /** The group made from `list` at position `index`: its first `n` items
      after a shuffle reading draws from `pos`, and the colour for `index`. */
  function GroupFor(list: ListItem, index: nat, n: nat, rand: seq<nat>, pos: nat): PuzzleGroup
  {
    PuzzleGroup(list.name, Take(Shuffled(list.items, rand, pos), n), Some(GroupHue(index, n)), Some(list.id))
  }

  /** The draws consumed by shuffling the items of the first `i` lists, one
      after another. */
  function DrawsBefore(lists: seq<ListItem>, i: nat): nat
    requires i <= |lists|
  {
    if i == 0 then 0 else DrawsBefore(lists, i - 1) + DrawsUsed(|lists[i - 1].items|)
  }

  /** Group `i` of the lists: made from list `i` with the draws after those
      the earlier lists' shuffles consumed. */
  function GroupAt(lists: seq<ListItem>, i: nat, n: nat, rand: seq<nat>, pos: nat): PuzzleGroup
    requires i < |lists|
  {
    GroupFor(lists[i], i, n, rand, pos + DrawsBefore(lists, i))
  }

  /** The `finalLists.map((list, index) => ...)` of `generatePuzzle`. */
  function BuildGroups(lists: seq<ListItem>, n: nat, rand: seq<nat>, pos: nat): seq<PuzzleGroup>
  {
    seq(|lists|, i requires 0 <= i < |lists| => GroupAt(lists, i, n, rand, pos))
  }

  datatype Generated = Generated(puzzle: Option<Puzzle>, next: nat)

  /** The lists `generatePuzzle` keeps before the final shuffle: the required
      ones, then the first `n - |required|` of the shuffled remainder. */
  function Chosen(cands: seq<ListItem>, n: nat, includeIds: seq<string>, rand: seq<nat>, pos: nat): seq<ListItem>
  {
    var pick := PickIncluded(cands, includeIds);
    pick.selected + JsSlice(Shuffled(pick.rest, rand, pos), 0, n - |pick.selected|)
  }

  /** The draw position after the shuffle of the remaining lists. */
  function AfterRest(cands: seq<ListItem>, includeIds: seq<string>, pos: nat): nat
  {
    pos + DrawsUsed(|PickIncluded(cands, includeIds).rest|)
  }

  /** `finalLists`: the chosen lists in shuffled order. */
  function FinalLists(cands: seq<ListItem>, n: nat, includeIds: seq<string>, rand: seq<nat>, pos: nat): seq<ListItem>
  {
    Shuffled(Chosen(cands, n, includeIds, rand, pos), rand, AfterRest(cands, includeIds, pos))
  }

  /** The draw position once `finalLists` is shuffled. */
  function AfterFinal(cands: seq<ListItem>, n: nat, includeIds: seq<string>, rand: seq<nat>, pos: nat): nat
  {
    AfterRest(cands, includeIds, pos) + DrawsUsed(|Chosen(cands, n, includeIds, rand, pos)|)
  }

  /** What `generatePuzzle(n, { excludeIds, includeIds })` returns, and the
      position of the first unread draw. */
  function GenerateSpec(lists: seq<ListItem>, n: nat, excludeIds: seq<string>, includeIds: seq<string>,
                        rand: seq<nat>, pos: nat, now: int): Generated
  {
    var cands := Candidates(lists, n, excludeIds);
    if |cands| < n then Generated(None, pos)
    else
      var final := FinalLists(cands, n, includeIds, rand, pos);
      var p2 := AfterFinal(cands, n, includeIds, rand, pos);
      Generated(Some(Puzzle(now, Title(n), BuildGroups(final, n, rand, p2), Some(true), Some(n))),
                p2 + DrawsBefore(final, |final|))
  }

  /** The lists that end up in the puzzle come from the candidates, with no
      list used twice. */
  lemma ChosenFromCandidates(cands: seq<ListItem>, n: nat, includeIds: seq<string>, rand: seq<nat>, pos: nat)
    ensures multiset(FinalLists(cands, n, includeIds, rand, pos)) <= multiset(cands)
  {
    var p1 := AfterRest(cands, includeIds, pos);
    var pick := PickIncluded(cands, includeIds);
    var sh := Shuffled(pick.rest, rand, pos);
    var chosen := Chosen(cands, n, includeIds, rand, pos);
    PickSound(cands, includeIds);
    ShuffledIsPermutation(pick.rest, rand, pos);
    ShuffledIsPermutation(chosen, rand, p1);
    JsSliceBounds(sh, 0, n - |pick.selected|);
    assert multiset(chosen) == multiset(pick.selected) + multiset(JsSlice(sh, 0, n - |pick.selected|));
  }

  /** `generatePuzzle` returns `null` exactly when fewer than `n` lists are
      candidates; otherwise the puzzle carries the timestamp, the title, the
      generated flag and the size. */
  lemma GenerateNullIff(lists: seq<ListItem>, n: nat, excludeIds: seq<string>, includeIds: seq<string>,
                        rand: seq<nat>, pos: nat, now: int)
    ensures GenerateSpec(lists, n, excludeIds, includeIds, rand, pos, now).puzzle.None?
            <==> |Candidates(lists, n, excludeIds)| < n
    ensures GenerateSpec(lists, n, excludeIds, includeIds, rand, pos, now).puzzle.Some? ==>
      var p := GenerateSpec(lists, n, excludeIds, includeIds, rand, pos, now).puzzle.value;
      p.id == now && p.title == Title(n) && p.generated == Some(true) && p.size == Some(n)
  {
  }

  /** Every group of a generated puzzle comes from a list of the database that
      has at least `n` items and is not excluded; it has exactly `n` of that
      list's items, none used twice, and the colour for its position. */
  lemma GeneratedGroup(lists: seq<ListItem>, n: nat, excludeIds: seq<string>, includeIds: seq<string>,
                       rand: seq<nat>, pos: nat, now: int, i: nat)
    requires GenerateSpec(lists, n, excludeIds, includeIds, rand, pos, now).puzzle.Some?
    requires i < |GenerateSpec(lists, n, excludeIds, includeIds, rand, pos, now).puzzle.value.groups|
    ensures var g := GenerateSpec(lists, n, excludeIds, includeIds, rand, pos, now).puzzle.value.groups[i];
      g.color == Some(GroupHue(i, n)) && |g.words| == n
      && exists l :: l in lists && |l.items| >= n && l.id !in excludeIds
                     && g.sourceId == Some(l.id) && g.name == l.name && multiset(g.words) <= multiset(l.items)
  {
    var cands := Candidates(lists, n, excludeIds);
    var final := FinalLists(cands, n, includeIds, rand, pos);
    var p2 := AfterFinal(cands, n, includeIds, rand, pos);
    var groups := GenerateSpec(lists, n, excludeIds, includeIds, rand, pos, now).puzzle.value.groups;
    assert groups == BuildGroups(final, n, rand, p2);
    var l := final[i];
    ChosenFromCandidates(cands, n, includeIds, rand, pos);
    assert l in multiset(final);
    CandidatesIff(lists, n, excludeIds, l);
    BuiltGroup(final, n, rand, p2, i);
  }

  /** Group `i` of `BuildGroups` is made from list `i`: its name, id and
      colour, and `n` of its items when it has that many. */
  lemma BuiltGroup(final: seq<ListItem>, n: nat, rand: seq<nat>, p2: nat, i: nat)
    requires i < |final|
    ensures |BuildGroups(final, n, rand, p2)| == |final|
    ensures var g := BuildGroups(final, n, rand, p2)[i];
      g.name == final[i].name && g.sourceId == Some(final[i].id) && g.color == Some(GroupHue(i, n))
      && multiset(g.words) <= multiset(final[i].items)
      && (|final[i].items| >= n ==> |g.words| == n)
  {
    var q := p2 + DrawsBefore(final, i);
    assert BuildGroups(final, n, rand, p2)[i] == GroupFor(final[i], i, n, rand, q);
    ShuffledIsPermutation(final[i].items, rand, q);
    TakeIsSlice(Shuffled(final[i].items, rand, q), n);
  }

  /** Every required id that names a candidate list is among the groups. */
  lemma GeneratedIncludes(lists: seq<ListItem>, n: nat, excludeIds: seq<string>, includeIds: seq<string>,
                          rand: seq<nat>, pos: nat, now: int, k: nat, l: ListItem)
    requires GenerateSpec(lists, n, excludeIds, includeIds, rand, pos, now).puzzle.Some?
    requires k < |includeIds| && l in lists && l.id == includeIds[k] && |l.items| >= n && l.id !in excludeIds
    ensures var groups := GenerateSpec(lists, n, excludeIds, includeIds, rand, pos, now).puzzle.value.groups;
      exists i :: 0 <= i < |groups| && groups[i].sourceId == Some(includeIds[k])
  {
    var cands := Candidates(lists, n, excludeIds);
    CandidatesIff(lists, n, excludeIds, l);
    var final := FinalLists(cands, n, includeIds, rand, pos);
    var p2 := AfterFinal(cands, n, includeIds, rand, pos);
    var groups := GenerateSpec(lists, n, excludeIds, includeIds, rand, pos, now).puzzle.value.groups;
    assert groups == BuildGroups(final, n, rand, p2);
    var i := FinalHasRequired(cands, n, includeIds, rand, pos, k, l);
    BuiltGroup(final, n, rand, p2, i);
  }

  /** A required id that names a candidate is carried by one of the final
      lists. */
  lemma FinalHasRequired(cands: seq<ListItem>, n: nat, includeIds: seq<string>, rand: seq<nat>, pos: nat,
                         k: nat, l: ListItem) returns (i: nat)
    requires k < |includeIds| && l in cands && l.id == includeIds[k]
    ensures i < |FinalLists(cands, n, includeIds, rand, pos)|
    ensures FinalLists(cands, n, includeIds, rand, pos)[i].id == includeIds[k]
  {
    var pick := PickIncluded(cands, includeIds);
    PickComplete(cands, includeIds, k, l);
    var j :| 0 <= j < |pick.selected| && pick.selected[j].id == includeIds[k];
    var chosen := Chosen(cands, n, includeIds, rand, pos);
    var final := FinalLists(cands, n, includeIds, rand, pos);
    assert chosen[j] == pick.selected[j];
    ShuffledIsPermutation(chosen, rand, AfterRest(cands, includeIds, pos));
    assert chosen[j] in multiset(final);
    i :| 0 <= i < |final| && final[i] == chosen[j];
  }

  /** With unique list ids and at most `n` required ids, a generated puzzle
      has exactly `n` groups, so it passes `validatePuzzle` exactly when `n`
      is between 5 and 100. */
  lemma GeneratedSize(lists: seq<ListItem>, n: nat, excludeIds: seq<string>, includeIds: seq<string>,
                      rand: seq<nat>, pos: nat, now: int)
    requires UniqueIds(lists)
    requires |PickIncluded(Candidates(lists, n, excludeIds), includeIds).selected| <= n
    requires GenerateSpec(lists, n, excludeIds, includeIds, rand, pos, now).puzzle.Some?
    ensures |GenerateSpec(lists, n, excludeIds, includeIds, rand, pos, now).puzzle.value.groups| == n
    ensures WellFormed(GenerateSpec(lists, n, excludeIds, includeIds, rand, pos, now).puzzle.value)
            <==> MinGroups <= n <= MaxGroups
  {
    var cands := Candidates(lists, n, excludeIds);
    FilterKeepsUnique(lists, HasAtLeast(n));
    if |excludeIds| > 0 {
      FilterKeepsUnique(EligibleLists(lists, n), NotExcluded(excludeIds));
    }
    PickCounts(cands, includeIds);
    PickSound(cands, includeIds);
    var pick := PickIncluded(cands, includeIds);
    var p1 := pos + DrawsUsed(|pick.rest|);
    var sh := Shuffled(pick.rest, rand, pos);
    ShuffledIsPermutation(pick.rest, rand, pos);
    JsSlicePrefix(sh, n - |pick.selected|);
    var chosen := Chosen(cands, n, includeIds, rand, pos);
    assert |chosen| == n;
    ShuffledIsPermutation(chosen, rand, p1);
    var p := GenerateSpec(lists, n, excludeIds, includeIds, rand, pos, now).puzzle.value;
    forall i | 0 <= i < |p.groups|
      ensures |p.groups[i].words| == n
    {
      GeneratedGroup(lists, n, excludeIds, includeIds, rand, pos, now, i);
    }
  }

  /** The `includeIds` loop of `generatePuzzle`. */
  method PickRequired(eligible: seq<ListItem>, includeIds: seq<string>) returns (selected: seq<ListItem>, rest: seq<ListItem>)
    ensures Pick(selected, rest) == PickIncluded(eligible, includeIds)
  {
    selected, rest := [], eligible;
    var k := 0;
    while k < |includeIds|
      invariant 0 <= k <= |includeIds|
      invariant Pick(selected, rest) == PickIncluded(eligible, includeIds[..k])
    {
      PickIncludedSnoc(eligible, includeIds, k);
      var id := includeIds[k];
      var list := Find(rest, id);
      if list.Some? {
        selected := selected + [list.value];
        rest := Filter(rest, LacksId(id));
      }
      k := k + 1;
    }
    assert includeIds[..k] == includeIds;
  }

  /** The callback of `finalLists.map(...)` for list `index`: its items
      shuffled and cut to `n`, coloured by the index. */
  method MakeGroup(list: ListItem, index: nat, n: nat, rand: seq<nat>, pos: nat) returns (group: PuzzleGroup, next: nat)
    ensures group == GroupFor(list, index, n, rand, pos)
    ensures next == pos + DrawsUsed(|list.items|)
  {
    var items;
    items, next := Shuffle(list.items, rand, pos);
    var words := JsSlice(items, 0, n);
    TakeIsSlice(items, n);
    group := PuzzleGroup(list.name, words, Some(GroupHue(index, n)), Some(list.id));
  }

  /** The `finalLists.map(...)` of `generatePuzzle`, one list after another. */
  method MakeGroups(finalLists: seq<ListItem>, n: nat, rand: seq<nat>, pos: nat) returns (groups: seq<PuzzleGroup>, next: nat)
    ensures groups == BuildGroups(finalLists, n, rand, pos)
    ensures next == pos + DrawsBefore(finalLists, |finalLists|)
  {
    groups, next := [], pos;
    var i := 0;
    while i < |finalLists|
      invariant 0 <= i <= |finalLists|
      invariant next == pos + DrawsBefore(finalLists, i)
      invariant groups == BuildGroups(finalLists[..i], n, rand, pos)
    {
      var group, after := MakeGroup(finalLists[i], i, n, rand, next);
      BuildGroupsStep(finalLists, n, rand, pos, i, groups, group, next);
      groups := groups + [group];
      next := after;
      i := i + 1;
    }
    BuildGroupsWhole(finalLists, n, rand, pos);
  }

  lemma BuildGroupsStep(lists: seq<ListItem>, n: nat, rand: seq<nat>, pos: nat, i: nat,
                        groups: seq<PuzzleGroup>, group: PuzzleGroup, at: nat)
    requires i < |lists| && at == pos + DrawsBefore(lists, i)
    requires groups == BuildGroups(lists[..i], n, rand, pos)
    requires group == GroupFor(lists[i], i, n, rand, at)
    ensures groups + [group] == BuildGroups(lists[..i + 1], n, rand, pos)
  {
    assert group == GroupAt(lists, i, n, rand, pos);
    BuildGroupsSnoc(lists, n, rand, pos, i);
  }

  lemma BuildGroupsWhole(lists: seq<ListItem>, n: nat, rand: seq<nat>, pos: nat)
    ensures BuildGroups(lists[..|lists|], n, rand, pos) == BuildGroups(lists, n, rand, pos)
  {
    assert lists[..|lists|] == lists;
  }

  /** Extending the prefix of lists by one appends that list's group. */
  lemma BuildGroupsSnoc(lists: seq<ListItem>, n: nat, rand: seq<nat>, pos: nat, i: nat)
    requires i < |lists|
    ensures BuildGroups(lists[..i + 1], n, rand, pos)
         == BuildGroups(lists[..i], n, rand, pos) + [GroupAt(lists, i, n, rand, pos)]
  {
    var lhs := BuildGroups(lists[..i + 1], n, rand, pos);
    var rhs := BuildGroups(lists[..i], n, rand, pos) + [GroupAt(lists, i, n, rand, pos)];
    forall k | 0 <= k <= i
      ensures lhs[k] == rhs[k]
    {
      GroupAtPrefix(lists, i + 1, k, n, rand, pos);
      if k < i {
        GroupAtPrefix(lists, i, k, n, rand, pos);
      }
    }
    assert |lhs| == |rhs|;
  }

  /** Group `k` of a prefix of the lists is group `k` of all of them. */
  lemma GroupAtPrefix(lists: seq<ListItem>, m: nat, k: nat, n: nat, rand: seq<nat>, pos: nat)
    requires k < m <= |lists|
    ensures GroupAt(lists[..m], k, n, rand, pos) == GroupAt(lists, k, n, rand, pos)
  {
    DrawsBeforePrefix(lists, m, k);
    assert lists[..m][k] == lists[k];
  }

  /** The draws before list `k` do not depend on the lists after it. */
  lemma {:induction false} DrawsBeforePrefix(lists: seq<ListItem>, m: nat, k: nat)
    requires k <= m <= |lists|
    ensures DrawsBefore(lists[..m], k) == DrawsBefore(lists, k)
    decreases k
  {
    if k > 0 {
      DrawsBeforePrefix(lists, m, k - 1);
    }
  }

  /** The choice of `finalLists` in `generatePuzzle`: the required lists,
      then the shuffled remainder cut to size, all shuffled again. */
  method ChooseLists(cands: seq<ListItem>, n: nat, includeIds: seq<string>, rand: seq<nat>, pos: nat)
    returns (finalLists: seq<ListItem>, next: nat)
    ensures finalLists == FinalLists(cands, n, includeIds, rand, pos)
    ensures next == AfterFinal(cands, n, includeIds, rand, pos)
  {
    var selected, rest := PickRequired(cands, includeIds);
    var shuffled;
    shuffled, next := Shuffle(rest, rand, pos);
    assert next == AfterRest(cands, includeIds, pos);
    var remaining := n - |selected|;
    selected := selected + JsSlice(shuffled, 0, remaining);
    assert selected == Chosen(cands, n, includeIds, rand, pos);
    finalLists, next := Shuffle(selected, rand, next);
  }

  /** `generatePuzzle(n, { excludeIds, includeIds })`. */
  method GeneratePuzzle(lists: seq<ListItem>, n: nat, excludeIds: seq<string>, includeIds: seq<string>,
                        rand: seq<nat>, pos: nat, now: int) returns (r: Option<Puzzle>, next: nat)
    ensures Generated(r, next) == GenerateSpec(lists, n, excludeIds, includeIds, rand, pos, now)
  {
    var eligible := EligibleLists(lists, n);
    if |excludeIds| > 0 {
      eligible := Filter(eligible, NotExcluded(excludeIds));
    }
    ghost var cands := eligible;
    assert cands == Candidates(lists, n, excludeIds);
    if |eligible| < n {
      return None, pos;
    }
    var finalLists;
    finalLists, next := ChooseLists(eligible, n, includeIds, rand, pos);
    var groups;
    groups, next := MakeGroups(finalLists, n, rand, next);
    r := Some(Puzzle(now, Title(n), groups, Some(true), Some(n)));
  }

  lemma PickIncludedSnoc(cands: seq<ListItem>, ids: seq<string>, k: nat)
    requires k < |ids|
    ensures PickIncluded(cands, ids[..k + 1]) == PickStep(PickIncluded(cands, ids[..k]), ids[k])
  {
    assert ids[..k + 1][..k] == ids[..k];
  }

  // ---------------------------------------------------------------------------
  // getMaxPuzzleSize

  /** `counts.filter(c => c >= n).length`. */
  function ListsWithEnough(lists: seq<ListItem>, n: int): nat
  {
    |EligibleLists(lists, n)|
  }

  /** `getMaxPuzzleSize()`: the largest `n` from the number of lists down to 5
      with at least `n` lists of `n` or more items, and 5 when there is none. */
  method GetMaxPuzzleSize(lists: seq<ListItem>) returns (r: nat)
    ensures r >= 5
    ensures r == 5 || (r <= |lists| && ListsWithEnough(lists, r) >= r)
    ensures forall m :: r < m <= |lists| ==> ListsWithEnough(lists, m) < m
    ensures (exists m :: 5 <= m <= |lists| && ListsWithEnough(lists, m) >= m) ==> ListsWithEnough(lists, r) >= r
  {
    var n := |lists|;
    while n >= 5
      invariant forall m :: n < m <= |lists| ==> ListsWithEnough(lists, m) < m
      decreases n
    {
      var listsWithEnough := |EligibleLists(lists, n)|;
      if listsWithEnough >= n {
        return n;
      }
      n := n - 1;
    }
    return 5;
  }

  /** At the size `getMaxPuzzleSize` reports, a puzzle without exclusions can
      be generated, unless the fallback 5 was returned. */
  lemma MaxSizeGenerates(lists: seq<ListItem>, r: nat, includeIds: seq<string>, rand: seq<nat>, pos: nat, now: int)
    requires ListsWithEnough(lists, r) >= r
    ensures GenerateSpec(lists, r, [], includeIds, rand, pos, now).puzzle.Some?
  {
  }

  /** Each include id selects at most one list, so `includeIds.length <= n`
      is enough for the size property above. */
  lemma {:induction false} PickAtMostIds(eligible: seq<ListItem>, ids: seq<string>)
    ensures |PickIncluded(eligible, ids).selected| <= |ids|
    decreases |ids|
  {
    if ids != [] {
      PickAtMostIds(eligible, ids[..|ids| - 1]);
    }
  }

  lemma {:induction false} UniqueMultiplicity(b: seq<ListItem>, x: ListItem)
    requires UniqueIds(b)
    ensures multiset(b)[x] <= 1
    decreases |b|
  {
    if b != [] {
      assert b == [b[0]] + b[1..];
      assert UniqueIds(b[1..]);
      UniqueMultiplicity(b[1..], x);
      if b[0] == x {
        assert x !in b[1..] by {
          forall k | 0 <= k < |b[1..]|
            ensures b[1..][k] != x
          {
            assert b[k + 1].id != b[0].id;
          }
        }
      }
    }
  }

  lemma TwiceCounted(a: seq<ListItem>, i: nat, j: nat)
    requires i < j < |a| && a[i] == a[j]
    ensures multiset(a)[a[i]] >= 2
  {
    assert a == a[..j] + [a[j]] + a[j + 1..];
    assert a[..j][i] == a[i];
    assert a[i] in multiset(a[..j]);
  }

  /** Taking lists out of a list with unique ids, each at most as often as it
      occurs there, gives a list with unique ids. */
  lemma SubUnique(a: seq<ListItem>, b: seq<ListItem>)
    requires UniqueIds(b) && multiset(a) <= multiset(b)
    ensures UniqueIds(a)
  {
    forall i, j | 0 <= i < j < |a|
      ensures a[i].id != a[j].id
    {
      if a[i] == a[j] {
        TwiceCounted(a, i, j);
        UniqueMultiplicity(b, a[i]);
      } else {
        assert a[i] in multiset(b) && a[j] in multiset(b);
        var p :| 0 <= p < |b| && b[p] == a[i];
        var q :| 0 <= q < |b| && b[q] == a[j];
        assert p != q;
      }
    }
  }

  /** With more than `n` required ids, `n - selectedLists.length` is negative
      and `slice(0, remaining)` drops only that many lists from the end of
      the shuffled remainder: the puzzle keeps every required list and gets
      more than `n` groups. */
  lemma GeneratedOverfull(lists: seq<ListItem>, n: nat, excludeIds: seq<string>, includeIds: seq<string>,
                          rand: seq<nat>, pos: nat, now: int)
    requires |PickIncluded(Candidates(lists, n, excludeIds), includeIds).selected| > n
    requires GenerateSpec(lists, n, excludeIds, includeIds, rand, pos, now).puzzle.Some?
    ensures var pick := PickIncluded(Candidates(lists, n, excludeIds), includeIds);
      var extra := |pick.rest| + n - |pick.selected|;
      |GenerateSpec(lists, n, excludeIds, includeIds, rand, pos, now).puzzle.value.groups|
        == |pick.selected| + (if extra > 0 then extra else 0) > n
  {
    var cands := Candidates(lists, n, excludeIds);
    var pick := PickIncluded(cands, includeIds);
    var sh := Shuffled(pick.rest, rand, pos);
    ShuffledIsPermutation(pick.rest, rand, pos);
    ShuffledIsPermutation(Chosen(cands, n, includeIds, rand, pos), rand, AfterRest(cands, includeIds, pos));
    assert |JsSlice(sh, 0, n - |pick.selected|)| == RelativeIndex(n - |pick.selected|, |sh|);
  }

  /** The groups of a generated puzzle come from pairwise different source
      lists. */
  lemma GeneratedDistinctSources(lists: seq<ListItem>, n: nat, excludeIds: seq<string>, includeIds: seq<string>,
                                 rand: seq<nat>, pos: nat, now: int)
    requires UniqueIds(lists)
    requires GenerateSpec(lists, n, excludeIds, includeIds, rand, pos, now).puzzle.Some?
    ensures var groups := GenerateSpec(lists, n, excludeIds, includeIds, rand, pos, now).puzzle.value.groups;
      forall i, j :: 0 <= i < j < |groups| ==> groups[i].sourceId != groups[j].sourceId
  {
    var cands := Candidates(lists, n, excludeIds);
    FilterKeepsUnique(lists, HasAtLeast(n));
    if |excludeIds| > 0 {
      FilterKeepsUnique(EligibleLists(lists, n), NotExcluded(excludeIds));
    }
    var final := FinalLists(cands, n, includeIds, rand, pos);
    ChosenFromCandidates(cands, n, includeIds, rand, pos);
    SubUnique(final, cands);
    var p2 := AfterFinal(cands, n, includeIds, rand, pos);
    var groups := GenerateSpec(lists, n, excludeIds, includeIds, rand, pos, now).puzzle.value.groups;
    assert groups == BuildGroups(final, n, rand, p2);
    forall i, j | 0 <= i < j < |groups|
      ensures groups[i].sourceId != groups[j].sourceId
    {
      BuiltGroup(final, n, rand, p2, i);
      BuiltGroup(final, n, rand, p2, j);
    }
  }
}
