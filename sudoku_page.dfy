/** The Sudoku page (src/pages/Sudoku.tsx): the table of solved puzzles with
    its sort and pagination, the benchmark table with its search, "solved
    only" switch and pagination, the set of benchmark puzzles the reader has
    ticked, and the formatting of the German solve dates. */
module SudokuPage {
  import opened Common

  datatype Puzzle = Puzzle(name: string, link: string, author: string, difficulty: int, solveDate: string)

  datatype BenchmarkPuzzle = BenchmarkPuzzle(puzzleId: string, title: string, author: string)

  datatype SortField = Date | Difficulty

  datatype SortDir = Asc | Desc

  const PageSize: nat := 10
  const BenchmarkPageSize: nat := 25

  // ---------------------------------------------------------------------------
  // Sorting the solved puzzles

  function Reverse<T>(s: seq<T>): (r: seq<T>)
    ensures |r| == |s| && forall i :: 0 <= i < |s| ==> r[i] == s[|s| - 1 - i]
  {
    if s == [] then [] else Reverse(s[1..]) + [s[0]]
  }

  /** `a` goes strictly before `b` under the difficulty comparator. */
  predicate Ahead(a: Puzzle, b: Puzzle, dir: SortDir)
  {
    if dir == Desc then a.difficulty > b.difficulty else a.difficulty < b.difficulty
  }

  /** The comparator never puts a later element strictly ahead of an earlier. */
  predicate Ordered(s: seq<Puzzle>, dir: SortDir)
  {
    forall i, j :: 0 <= i < j < |s| ==> !Ahead(s[j], s[i], dir)
  }

  /** One step of a stable sort: `x` goes after every entry it is not
      strictly ahead of. */
  function Insert(sorted: seq<Puzzle>, x: Puzzle, dir: SortDir): seq<Puzzle>
  {
    if sorted == [] then [x]
    else if Ahead(x, sorted[0], dir) then [x] + sorted
    else [sorted[0]] + Insert(sorted[1..], x, dir)
  }

  /** The stable sort `Array.prototype.sort` performs with the difficulty
      comparator. */
  function SortByDifficulty(s: seq<Puzzle>, dir: SortDir): seq<Puzzle>
  {
    if s == [] then [] else Insert(SortByDifficulty(s[..|s| - 1], dir), s[|s| - 1], dir)
  }

  /** `sortedPuzzles`. Under the date field the comparator compares the
      positions of the entries in the list, so `desc` keeps the list and
      `asc` reverses it. */
  function SortedPuzzles(s: seq<Puzzle>, field: SortField, dir: SortDir): seq<Puzzle>
  {
    match field
    case Date => if dir == Desc then s else Reverse(s)
    case Difficulty => SortByDifficulty(s, dir)
  }

  /** The entries of difficulty `d`, in the order of `s`. */
  function OfDifficulty(s: seq<Puzzle>, d: int): seq<Puzzle>
  {
    if s == [] then [] else (if s[0].difficulty == d then [s[0]] else []) + OfDifficulty(s[1..], d)
  }

  lemma {:induction false} OfDifficultyConcat(a: seq<Puzzle>, b: seq<Puzzle>, d: int)
    ensures OfDifficulty(a + b, d) == OfDifficulty(a, d) + OfDifficulty(b, d)
    decreases |a|
  {
    if a != [] {
      assert (a + b)[0] == a[0] && (a + b)[1..] == a[1..] + b;
      OfDifficultyConcat(a[1..], b, d);
      var f := if a[0].difficulty == d then [a[0]] else [];
      calc {
        OfDifficulty(a + b, d);
        f + OfDifficulty(a[1..] + b, d);
        f + (OfDifficulty(a[1..], d) + OfDifficulty(b, d));
        (f + OfDifficulty(a[1..], d)) + OfDifficulty(b, d);
        OfDifficulty(a, d) + OfDifficulty(b, d);
      }
    } else {
      assert a + b == b;
    }
  }

  lemma {:induction false} InsertSorted(sorted: seq<Puzzle>, x: Puzzle, dir: SortDir)
    requires Ordered(sorted, dir)
    ensures Ordered(Insert(sorted, x, dir), dir)
    ensures multiset(Insert(sorted, x, dir)) == multiset(sorted) + multiset{x}
    decreases |sorted|
  {
    if sorted == [] {
    } else if Ahead(x, sorted[0], dir) {
      InsertAheadSorted(sorted, x, dir);
    } else {
      assert Ordered(sorted[1..], dir);
      InsertSorted(sorted[1..], x, dir);
      InsertStepSorted(sorted, x, dir);
    }
  }

  lemma InsertAheadSorted(sorted: seq<Puzzle>, x: Puzzle, dir: SortDir)
    requires Ordered(sorted, dir) && sorted != [] && Ahead(x, sorted[0], dir)
    ensures Ordered(Insert(sorted, x, dir), dir)
    ensures multiset(Insert(sorted, x, dir)) == multiset(sorted) + multiset{x}
  {
    forall j | 0 <= j < |sorted|
      ensures !Ahead(sorted[j], x, dir)
    {
      if j > 0 {
        assert !Ahead(sorted[j], sorted[0], dir);
      }
    }
  }

  lemma InsertStepSorted(sorted: seq<Puzzle>, x: Puzzle, dir: SortDir)
    requires Ordered(sorted, dir) && sorted != [] && !Ahead(x, sorted[0], dir)
    requires Ordered(Insert(sorted[1..], x, dir), dir)
    requires multiset(Insert(sorted[1..], x, dir)) == multiset(sorted[1..]) + multiset{x}
    ensures Ordered(Insert(sorted, x, dir), dir)
    ensures multiset(Insert(sorted, x, dir)) == multiset(sorted) + multiset{x}
  {
    var rest := sorted[1..];
    assert sorted == [sorted[0]] + rest;
    var r := Insert(rest, x, dir);
    assert Insert(sorted, x, dir) == [sorted[0]] + r;
    NotAheadOfHead(sorted, x, r, dir);
    OrderedCons(sorted[0], r, dir);
  }

  /** Nothing of the rest of an ordered list, nor an entry not ahead of its
      head, is ahead of the head. */
  lemma NotAheadOfHead(sorted: seq<Puzzle>, x: Puzzle, r: seq<Puzzle>, dir: SortDir)
    requires Ordered(sorted, dir) && sorted != [] && !Ahead(x, sorted[0], dir)
    requires multiset(r) == multiset(sorted[1..]) + multiset{x}
    ensures forall j :: 0 <= j < |r| ==> !Ahead(r[j], sorted[0], dir)
  {
    var rest := sorted[1..];
    forall j | 0 <= j < |r|
      ensures !Ahead(r[j], sorted[0], dir)
    {
      assert r[j] in multiset(r);
      if r[j] != x {
        assert r[j] in multiset(rest);
        var k :| 0 <= k < |rest| && rest[k] == r[j];
        assert sorted[k + 1] == r[j];
      }
    }
  }

  lemma OrderedCons(a: Puzzle, r: seq<Puzzle>, dir: SortDir)
    requires Ordered(r, dir) && forall j :: 0 <= j < |r| ==> !Ahead(r[j], a, dir)
    ensures Ordered([a] + r, dir)
  {
    var s := [a] + r;
    forall i, j | 0 <= i < j < |s|
      ensures !Ahead(s[j], s[i], dir)
    {
      assert s[j] == r[j - 1];
      if i > 0 {
        assert s[i] == r[i - 1];
      }
    }
  }

  /** Insertion keeps the entries of each difficulty in their order, the new
      one last. */
  lemma {:induction false} InsertStable(sorted: seq<Puzzle>, x: Puzzle, dir: SortDir, d: int)
    requires Ordered(sorted, dir)
    ensures OfDifficulty(Insert(sorted, x, dir), d) == OfDifficulty(sorted, d) + OfDifficulty([x], d)
    decreases |sorted|
  {
    if sorted == [] {
    } else if Ahead(x, sorted[0], dir) {
      InsertStableAhead(sorted, x, dir, d);
    } else {
      InsertStable(sorted[1..], x, dir, d);
      InsertStableStep(sorted, x, dir, d);
    }
  }

  lemma OfDifficultySingle(x: Puzzle, d: int)
    ensures OfDifficulty([x], d) == if x.difficulty == d then [x] else []
  {
    assert [x][1..] == [];
  }

  lemma {:induction false} OfDifficultyNone(s: seq<Puzzle>, d: int)
    requires forall j :: 0 <= j < |s| ==> s[j].difficulty != d
    ensures OfDifficulty(s, d) == []
    decreases |s|
  {
    if s != [] {
      OfDifficultyNone(s[1..], d);
    }
  }

  lemma InsertStableAhead(sorted: seq<Puzzle>, x: Puzzle, dir: SortDir, d: int)
    requires Ordered(sorted, dir) && sorted != [] && Ahead(x, sorted[0], dir)
    ensures OfDifficulty(Insert(sorted, x, dir), d) == OfDifficulty(sorted, d) + OfDifficulty([x], d)
  {
    OfDifficultySingle(x, d);
    OfDifficultyConcat([x], sorted, d);
    if x.difficulty == d {
      forall j | 0 <= j < |sorted|
        ensures sorted[j].difficulty != d
      {
        if j > 0 {
          assert !Ahead(sorted[j], sorted[0], dir);
        }
      }
      OfDifficultyNone(sorted, d);
    }
  }

  lemma InsertStableStep(sorted: seq<Puzzle>, x: Puzzle, dir: SortDir, d: int)
    requires sorted != [] && !Ahead(x, sorted[0], dir)
    requires OfDifficulty(Insert(sorted[1..], x, dir), d) == OfDifficulty(sorted[1..], d) + OfDifficulty([x], d)
    ensures OfDifficulty(Insert(sorted, x, dir), d) == OfDifficulty(sorted, d) + OfDifficulty([x], d)
  {
    var rest := sorted[1..];
    var f0 := if sorted[0].difficulty == d then [sorted[0]] else [];
    assert Insert(sorted, x, dir) == [sorted[0]] + Insert(rest, x, dir);
    assert OfDifficulty(Insert(sorted, x, dir), d) == f0 + OfDifficulty(Insert(rest, x, dir), d);
    assert OfDifficulty(sorted, d) == f0 + OfDifficulty(rest, d);
  }

  /** Sorting by difficulty orders the list, permutes it, and is stable:
      the entries of each difficulty keep their relative order. */
  lemma {:induction false} SortByDifficultySpec(s: seq<Puzzle>, dir: SortDir)
    ensures Ordered(SortByDifficulty(s, dir), dir)
    ensures multiset(SortByDifficulty(s, dir)) == multiset(s)
    ensures forall d :: OfDifficulty(SortByDifficulty(s, dir), d) == OfDifficulty(s, d)
    decreases |s|
  {
    if s != [] {
      var init, x := s[..|s| - 1], s[|s| - 1];
      SortByDifficultySpec(init, dir);
      InsertSorted(SortByDifficulty(init, dir), x, dir);
      assert s == init + [x];
      forall d
        ensures OfDifficulty(SortByDifficulty(s, dir), d) == OfDifficulty(s, d)
      {
        InsertStable(SortByDifficulty(init, dir), x, dir, d);
        OfDifficultyConcat(init, [x], d);
      }
    }
  }

  /** Under the date field, `desc` shows the list as it is and `asc` shows
      it backwards; changing direction twice gives the list back. */
  lemma SortByDate(s: seq<Puzzle>)
    ensures SortedPuzzles(s, Date, Desc) == s
    ensures forall i :: 0 <= i < |s| ==> SortedPuzzles(s, Date, Asc)[i] == s[|s| - 1 - i]
    ensures Reverse(SortedPuzzles(s, Date, Asc)) == s
  {
    var r := Reverse(s);
    assert Reverse(r) == s;
  }

  // ---------------------------------------------------------------------------
  // Pagination

  /** `Math.ceil(n / size)`. */
  function PageCount(n: nat, size: nat): (k: nat)
    requires size > 0
    ensures k * size >= n && (k == 0 || (k - 1) * size < n)
  {
    (n + size - 1) / size
  }

  /** `s.slice(page * size, (page + 1) * size)`. */
  function PageOf<T>(s: seq<T>, page: int, size: nat): seq<T>
  {
    JsSlice(s, page * size, (page + 1) * size)
  }

  /** A page from 0 on holds at most `size` entries, taken in order from
      position `page * size`. */
  lemma PageShape<T>(s: seq<T>, page: nat, size: nat)
    ensures |PageOf(s, page, size)| <= size
    ensures page * size <= |s| ==> PageOf(s, page, size) == s[page * size..Min((page + 1) * size, |s|)]
    ensures page * size >= |s| ==> PageOf(s, page, size) == []
  {
    assert (page + 1) * size == page * size + size;
  }

  function Min(a: int, b: int): int
  {
    if a <= b then a else b
  }

  /** The first `k` pages, one after the other. */
  function PagesUpTo<T>(s: seq<T>, size: nat, k: nat): seq<T>
  {
    if k == 0 then [] else PagesUpTo(s, size, k - 1) + PageOf(s, k - 1, size)
  }

  lemma {:induction false} PagesUpToPrefix<T>(s: seq<T>, size: nat, k: nat)
    ensures PagesUpTo(s, size, k) == s[..Min(k * size, |s|)]
  {
    if k > 0 {
      PagesUpToPrefix(s, size, k - 1);
      PageShape(s, k - 1, size);
      assert (k - 1) * size + size == k * size;
      if (k - 1) * size <= |s| {
        assert s[..Min(k * size, |s|)] == s[..(k - 1) * size] + s[(k - 1) * size..Min(k * size, |s|)];
      }
    }
  }

  /** Paging through all `PageCount` pages shows every entry once, in order. */
  lemma PagesCover<T>(s: seq<T>, size: nat)
    requires size > 0
    ensures PagesUpTo(s, size, PageCount(|s|, size)) == s
  {
    PagesUpToPrefix(s, size, PageCount(|s|, size));
  }

  /** `Math.max(0, p - 1)`. */
  function PrevPage(p: int): (q: int)
    ensures q == if p >= 1 then p - 1 else 0
  {
    if 0 >= p - 1 then 0 else p - 1
  }

  /** `Math.min(totalPages - 1, p + 1)`. */
  function NextPage(p: int, totalPages: int): (q: int)
    ensures q <= totalPages - 1 && q <= p + 1
    ensures q == p + 1 || q == totalPages - 1
  {
    if totalPages - 1 <= p + 1 then totalPages - 1 else p + 1
  }

  /** The buttons keep a page that is in range in range. */
  lemma PageClamps(p: int, totalPages: int)
    requires 0 <= p < totalPages
    ensures 0 <= PrevPage(p) < totalPages && 0 <= NextPage(p, totalPages) < totalPages
    ensures PrevPage(p) == p <==> p == 0
    ensures NextPage(p, totalPages) == p <==> p == totalPages - 1
  {
  }

  // ---------------------------------------------------------------------------
  // The benchmark filter

  /** The test inside `benchmarkPuzzles.filter(...)`. */
  predicate Shown(p: BenchmarkPuzzle, solves: set<string>, solvedOnly: bool, query: string)
  {
    (!solvedOnly || p.puzzleId in solves)
    && (query == "" || IncludesIgnoringCase(p.title, query) || IncludesIgnoringCase(p.author, query))
  }

  function FilteredBenchmark(bench: seq<BenchmarkPuzzle>, solves: set<string>, solvedOnly: bool, query: string)
    : (r: seq<BenchmarkPuzzle>)
    ensures forall i :: 0 <= i < |r| ==> r[i] in bench && Shown(r[i], solves, solvedOnly, query)
    ensures forall i :: 0 <= i < |bench| && Shown(bench[i], solves, solvedOnly, query) ==> bench[i] in r
  {
    Filter(bench, p => Shown(p, solves, solvedOnly, query))
  }

  /** With "solved only" set every entry left is in the solves index; with
      it unset and no query, nothing is filtered out; and the filter keeps
      the order of the list. */
  lemma FilteredBenchmarkCases(bench: seq<BenchmarkPuzzle>, solves: set<string>, solvedOnly: bool, query: string)
    ensures var r := FilteredBenchmark(bench, solves, solvedOnly, query);
      (solvedOnly ==> forall i :: 0 <= i < |r| ==> r[i].puzzleId in solves)
      && (!solvedOnly && query == "" ==> r == bench)
      && (forall a, b :: FilteredBenchmark(a + b, solves, solvedOnly, query)
                        == FilteredBenchmark(a, solves, solvedOnly, query) + FilteredBenchmark(b, solves, solvedOnly, query))
  {
    var p := (x: BenchmarkPuzzle) => Shown(x, solves, solvedOnly, query);
    if !solvedOnly && query == "" {
      FilterAll(bench, p);
    }
    forall a, b
      ensures FilteredBenchmark(a + b, solves, solvedOnly, query)
           == FilteredBenchmark(a, solves, solvedOnly, query) + FilteredBenchmark(b, solves, solvedOnly, query)
    {
      FilterConcat(a, b, p);
    }
  }

  function InSolves(solves: set<string>): BenchmarkPuzzle -> bool
  {
    (p: BenchmarkPuzzle) => p.puzzleId in solves
  }

  /** `mySolvedCount`: never more than the entries shown, and all of them
      when "solved only" is set. */
  lemma MySolvedCount(bench: seq<BenchmarkPuzzle>, solves: set<string>, solvedOnly: bool, query: string)
    ensures var r := FilteredBenchmark(bench, solves, solvedOnly, query);
      Count(r, InSolves(solves)) <= |r| && (solvedOnly ==> Count(r, InSolves(solves)) == |r|)
  {
    var r := FilteredBenchmark(bench, solves, solvedOnly, query);
    if solvedOnly {
      FilterAll(r, InSolves(solves));
    }
  }

  // ---------------------------------------------------------------------------
  // The ticked benchmark puzzles

  /** `toggleSolved`: the id leaves the set if it was in it, and joins it
      otherwise. */
  function Toggled(s: set<string>, id: string): (r: set<string>)
    ensures id in r <==> id !in s
    ensures forall x :: x != id ==> (x in r <==> x in s)
  {
    if id in s then s - {id} else s + {id}
  }

  lemma ToggleTwice(s: set<string>, id: string)
    ensures Toggled(Toggled(s, id), id) == s
  {
  }

  // ---------------------------------------------------------------------------
  // Difficulty stars

  /** `'★'.repeat(level) + '☆'.repeat(5 - level)`: five stars of which
      `level` are filled; `repeat` rejects a negative count, so a level
      outside 0..5 makes the row fail (`None`). */
  function DifficultyStars(level: int): (r: Option<string>)
    ensures r.Some? <==> 0 <= level <= 5
    ensures r.Some? ==> |r.value| == 5 && forall i :: 0 <= i < 5 ==> (r.value[i] == '★' <==> i < level)
  {
    if 0 <= level <= 5 then
      var full, empty := Repeat("★", level), Repeat("☆", 5 - level);
      assert forall i :: level <= i < 5 ==> (full + empty)[i] == empty[i - level];
      Some(full + empty)
    else None
  }

  // ---------------------------------------------------------------------------
  // German dates: `date.match(/(\d{1,2})\.\s*(\w+)\s*(\d{4})/)`

  const GermanMonths: map<string, string> := map[
    "Januar" := "01", "Februar" := "02", "März" := "03", "April" := "04",
    "Mai" := "05", "Juni" := "06", "Juli" := "07", "August" := "08",
    "September" := "09", "Oktober" := "10", "November" := "11", "Dezember" := "12"]

  /** `germanMonths[name] || '01'`. */
  function MonthNumber(name: string): string
  {
    if name in GermanMonths then GermanMonths[name] else "01"
  }

  datatype DateParts = DateParts(day: string, month: string, year: string)

  /** The length of the `\d{1,2}` group when a `.` follows it at `i`, or 0. */
  function DayLength(s: string, i: nat): (n: nat)
    ensures n <= 2 && (n > 0 ==> i + n < |s| && s[i + n] == '.' && forall m :: i <= m < i + n ==> IsDigit(s[m]))
  {
    if i + 2 < |s| && IsDigit(s[i]) && IsDigit(s[i + 1]) && s[i + 2] == '.' then 2
    else if i + 1 < |s| && IsDigit(s[i]) && s[i + 1] == '.' then 1
    else 0
  }

  /** The end of the run of word characters starting at `i`. */
  function WordEnd(s: string, i: nat, word: char -> bool): (k: nat)
    requires i <= |s|
    ensures i <= k <= |s| && (forall m :: i <= m < k ==> word(s[m])) && (k < |s| ==> !word(s[k]))
    decreases |s| - i
  {
    if i < |s| && word(s[i]) then WordEnd(s, i + 1, word) else i
  }

  predicate FourDigitsAt(s: string, k: nat)
  {
    k + 4 <= |s| && forall m :: k <= m < k + 4 ==> IsDigit(s[m])
  }

  /** Backtracking into the word: the largest `k` with `c < k < e` at which
      four digits start. */
  function YearInWord(s: string, c: nat, e: nat): (k: Option<nat>)
    ensures k.Some? ==> c < k.value < e && FourDigitsAt(s, k.value)
    ensures k.None? ==> forall m :: c < m < e ==> !FourDigitsAt(s, m)
    decreases e
  {
    if e <= c + 1 then None
    else if FourDigitsAt(s, e - 1) then Some(e - 1)
    else YearInWord(s, c, e - 1)
  }

  /** The pattern anchored at `i`, with `word` as the class of the month
      group: the day, then `.`, spaces, the longest word that still lets
      spaces and four digits follow. */
  function DateAt(s: string, i: nat, word: char -> bool): (r: Option<DateParts>)
    ensures r.Some? ==> 1 <= |r.value.day| <= 2 && AllDigits(r.value.day)
    ensures r.Some? ==> r.value.month != [] && (forall m :: 0 <= m < |r.value.month| ==> word(r.value.month[m]))
    ensures r.Some? ==> |r.value.year| == 4 && AllDigits(r.value.year)
  {
    var n := DayLength(s, i);
    if n == 0 then None
    else
      var c := SpaceRunEnd(s, i + n + 1);
      if c == |s| || !word(s[c]) then None
      else
        var b := WordEnd(s, c, word);
        var y := SpaceRunEnd(s, b);
        if FourDigitsAt(s, y) then Some(DateParts(s[i..i + n], s[c..b], s[y..y + 4]))
        else match YearInWord(s, c, b)
          case Some(k) => Some(DateParts(s[i..i + n], s[c..k], s[k..k + 4]))
          case None => None
  }

  /** The leftmost match at or after `i`. */
  function DateMatch(s: string, i: nat, word: char -> bool): Option<DateParts>
    decreases |s| - i
  {
    if i >= |s| then None
    else if DateAt(s, i, word).Some? then DateAt(s, i, word)
    else DateMatch(s, i + 1, word)
  }

  /** `${year}-${month}-${day}` with the day padded to two digits. */
  function IsoDate(m: DateParts): string
  {
    m.year + "-" + MonthNumber(m.month) + "-" + PadStart(m.day, 2, '0')
  }

  /** `formatDate` with `word` as the class of the month group. */
  function FormatDateWith(date: string, word: char -> bool): (r: string)
    ensures date == "Gestern" ==> r == "Recent"
  {
    if date == "Gestern" then "Recent"
    else match DateMatch(date, 0, word)
      case Some(m) => IsoDate(m)
      case None => date
  }

  /** `formatDate` as written: the month group is `\w`, ASCII letters,
      digits and `_`. */
  function FormatDate(date: string): string
  {
    FormatDateWith(date, IsWordChar)
  }

  /** The month class the German table calls for: `\w` and the umlauts. */
  predicate IsGermanWordChar(c: char)
  {
    IsWordChar(c) || c in {'ä', 'ö', 'ü', 'Ä', 'Ö', 'Ü', 'ß'}
  }

  /** `formatDate` with a month group that can read `März`. */
  function FormatDateIntended(date: string): string
  {
    FormatDateWith(date, IsGermanWordChar)
  }

  predicate AllSpaces(s: string)
  {
    forall m :: 0 <= m < |s| ==> IsSpace(s[m])
  }

  predicate AllDigits(s: string)
  {
    forall m :: 0 <= m < |s| ==> IsDigit(s[m])
  }

  /** A date `d. Monat yyyy` at the start of the text becomes `yyyy-mm-dd`:
      the day padded to two digits, the month from the table or `01`. */
  lemma FormatDateMatch(word: char -> bool, d: string, sp1: string, w: string, sp2: string, y: string, rest: string)
    requires forall c :: IsSpace(c) ==> !word(c)
    requires 1 <= |d| <= 2 && AllDigits(d) && AllSpaces(sp1)
    requires w != [] && (forall m :: 0 <= m < |w| ==> word(w[m]))
    requires sp2 != [] && AllSpaces(sp2) && |y| == 4 && AllDigits(y)
    ensures FormatDateWith(d + "." + sp1 + w + sp2 + y + rest, word)
         == y + "-" + MonthNumber(w) + "-" + PadStart(d, 2, '0')
  {
    var s := d + "." + sp1 + w + sp2 + y + rest;
    var n := |d|;
    var c := n + 1 + |sp1|;
    var b := c + |w|;
    var e := b + |sp2|;
    StandardLayout(s, word, d, sp1, w, sp2, y, rest, n, c, b, e);
    DateAtParts(s, word, n, c, b, e);
    assert |s| > 7;
    FormatOfMatch(s, word, DateParts(s[..n], s[c..b], s[e..e + 4]));
    assert DateParts(s[..n], s[c..b], s[e..e + 4]) == DateParts(d, w, y);
  }

  /** The result for a text whose leftmost match starts at 0. */
  lemma FormatOfMatch(s: string, word: char -> bool, m: DateParts)
    requires s != "Gestern"
    requires DateAt(s, 0, word) == Some(m)
    ensures FormatDateWith(s, word) == IsoDate(m)
  {
  }

  /** Where the pieces of `d. Monat yyyy` lie in the text. */
  lemma StandardLayout(s: string, word: char -> bool, d: string, sp1: string, w: string, sp2: string, y: string,
                        rest: string, n: nat, c: nat, b: nat, e: nat)
    requires s == d + "." + sp1 + w + sp2 + y + rest
    requires n == |d| && c == n + 1 + |sp1| && b == c + |w| && e == b + |sp2| && |y| == 4
    requires AllDigits(d) && AllSpaces(sp1) && (forall m :: 0 <= m < |w| ==> word(w[m])) && AllSpaces(sp2) && AllDigits(y)
    ensures e + 4 <= |s| && s[..n] == d && s[n] == '.' && s[c..b] == w && s[e..e + 4] == y
    ensures forall m :: 0 <= m < n ==> IsDigit(s[m])
    ensures forall m :: n + 1 <= m < c ==> IsSpace(s[m])
    ensures forall m :: c <= m < b ==> word(s[m])
    ensures forall m :: b <= m < e ==> IsSpace(s[m])
    ensures FourDigitsAt(s, e)
  {
    var p1 := d + ".";
    var p2 := p1 + sp1;
    var p3 := p2 + w;
    var p4 := p3 + sp2;
    var p5 := p4 + y;
    assert s == p5 + rest;
    forall m | 0 <= m < n
      ensures s[m] == d[m]
    {
      assert s[m] == p5[m] == p4[m] == p3[m] == p2[m] == p1[m];
    }
    assert s[n] == p5[n] == p4[n] == p3[n] == p2[n] == p1[n];
    forall m | n + 1 <= m < c
      ensures s[m] == sp1[m - n - 1]
    {
      assert s[m] == p5[m] == p4[m] == p3[m] == p2[m];
    }
    forall m | c <= m < b
      ensures s[m] == w[m - c]
    {
      assert s[m] == p5[m] == p4[m] == p3[m];
    }
    forall m | b <= m < e
      ensures s[m] == sp2[m - b]
    {
      assert s[m] == p5[m] == p4[m];
    }
    forall m | e <= m < e + 4
      ensures s[m] == y[m - e]
    {
      assert s[m] == p5[m];
    }
    assert s[..n] == d && s[c..b] == w && s[e..e + 4] == y;
  }

  /** The pattern at 0 when the text is laid out as day (`[0, n)`), `.`,
      spaces (up to `c`), word (up to `b`), spaces (up to `e`), year. */
  lemma DateAtParts(s: string, word: char -> bool, n: nat, c: nat, b: nat, e: nat)
    requires forall ch :: IsSpace(ch) ==> !word(ch)
    requires FourDigitsAt(s, e) && 1 <= n <= 2 && n + 1 <= c < b < e
    requires (forall m :: 0 <= m < n ==> IsDigit(s[m])) && s[n] == '.'
    requires (forall m :: n + 1 <= m < c ==> IsSpace(s[m])) && (forall m :: b <= m < e ==> IsSpace(s[m]))
    requires forall m :: c <= m < b ==> word(s[m])
    ensures DateAt(s, 0, word) == Some(DateParts(s[..n], s[c..b], s[e..e + 4]))
  {
    assert DayLength(s, 0) == n by {
      if n == 1 {
        assert s[1] == '.';
      }
    }
    assert word(s[c]) && IsSpace(s[b]) && IsDigit(s[e]);
    SpaceRunAt(s, n + 1, c);
    WordRunAt(s, c, b, word);
    SpaceRunAt(s, b, e);
  }

  lemma SpaceRunAt(s: string, i: nat, k: nat)
    requires i <= k < |s| && (forall m :: i <= m < k ==> IsSpace(s[m])) && !IsSpace(s[k])
    ensures SpaceRunEnd(s, i) == k
  {
  }

  lemma WordRunAt(s: string, i: nat, k: nat, word: char -> bool)
    requires i <= k < |s| && (forall m :: i <= m < k ==> word(s[m])) && !word(s[k])
    ensures WordEnd(s, i, word) == k
  {
  }

  /** A text with no `.` has no date in it and is shown as it is. */
  lemma NoDotNoMatch(s: string, word: char -> bool)
    requires forall m :: 0 <= m < |s| ==> s[m] != '.'
    ensures DateMatch(s, 0, word).None?
  {
    forall i | 0 <= i < |s|
      ensures DateAt(s, i, word).None?
    {
      assert DayLength(s, i) == 0;
    }
    NoMatchFrom(s, 0, word);
  }

  lemma FormatDateNoMatch(date: string, word: char -> bool)
    requires date != "Gestern" && forall m :: 0 <= m < |date| ==> date[m] != '.'
    ensures FormatDateWith(date, word) == date
  {
    NoDotNoMatch(date, word);
  }

  /** As written, `\w` stops at `ä`, so a March date is shown unchanged. */
  lemma MarchAsWritten(d: string, y: string)
    requires 1 <= |d| <= 2 && AllDigits(d) && |y| == 4 && AllDigits(y)
    ensures FormatDate(d + ". März " + y) == d + ". März " + y
  {
    var s := d + ". März " + y;
    var n := |d|;
    assert s[..n] == d && s[n..n + 7] == ". März " && s[n + 7..] == y;
    forall i | 0 <= i < |s|
      ensures DateAt(s, i, IsWordChar).None?
    {
      if i < n {
        MarchNoDateInDay(s, n, i);
      } else {
        MarchNoDay(s, n, i);
      }
    }
    NoMatchFrom(s, 0, IsWordChar);
    assert |s| > 7;
  }

  /** A match starting inside the day stops at `ä`. */
  lemma MarchNoDateInDay(s: string, n: nat, i: nat)
    requires i < n <= 2 && |s| == n + 11 && AllDigits(s[..n]) && s[n..n + 7] == ". März "
    ensures DateAt(s, i, IsWordChar).None?
  {
    assert s[n] == '.' && s[n + 1] == ' ' && s[n + 2] == 'M' && s[n + 3] == 'ä';
    assert IsDigit(s[i]) && s[i] == s[..n][i];
    if n == 2 && i == 0 {
      assert s[1] == s[..n][1];
    }
    assert DayLength(s, i) == n - i;
    SpaceRunAt(s, n + 1, n + 2);
    WordRunAt(s, n + 2, n + 3, IsWordChar);
    SpaceRunAt(s, n + 3, n + 3);
  }

  lemma MarchNoDay(s: string, n: nat, i: nat)
    requires n <= i < |s| && |s| == n + 11 && s[n..n + 7] == ". März "
    requires forall m :: n + 7 <= m < |s| ==> IsDigit(s[m])
    ensures DayLength(s, i) == 0
  {
    if i < n + 7 {
      assert s[i] == ". März "[i - n];
    } else {
      assert i + 1 < |s| ==> s[i + 1] != '.';
      assert i + 2 < |s| ==> s[i + 2] != '.';
    }
  }

  lemma {:induction false} NoMatchFrom(s: string, i: nat, word: char -> bool)
    requires forall m :: i <= m < |s| ==> DateAt(s, m, word).None?
    ensures DateMatch(s, i, word).None?
    decreases |s| - i
  {
    if i < |s| {
      NoMatchFrom(s, i + 1, word);
    }
  }

  /** With the umlauts in the month class the same date becomes
      `yyyy-03-dd`. */
  lemma MarchIntended(d: string, y: string)
    requires 1 <= |d| <= 2 && AllDigits(d) && |y| == 4 && AllDigits(y)
    ensures FormatDateIntended(d + ". März " + y) == y + "-03-" + PadStart(d, 2, '0')
  {
    MarchPieces(d, y);
    SpacesAreNotGermanWord();
    MarchIsGermanWord();
    FormatDateMatch(IsGermanWordChar, d, " ", "März", " ", y, "");
    MarchNumber();
    IsoDateMarch(d, y);
  }

  lemma MarchPieces(d: string, y: string)
    ensures d + ". März " + y == d + "." + " " + "März" + " " + y + ""
  {
  }

  lemma SpacesAreNotGermanWord()
    ensures forall c :: IsSpace(c) ==> !IsGermanWordChar(c)
  {
  }

  lemma MarchIsGermanWord()
    ensures forall m :: 0 <= m < |"März"| ==> IsGermanWordChar("März"[m])
    ensures AllSpaces(" ")
  {
    assert "März"[1] == 'ä';
  }

  lemma MarchNumber()
    ensures MonthNumber("März") == "03"
  {
  }

  lemma IsoDateMarch(d: string, y: string)
    ensures y + "-" + MonthNumber("März") + "-" + PadStart(d, 2, '0') == y + "-03-" + PadStart(d, 2, '0')
  {
    MarchNumber();
    DashedMonth(y, "03", PadStart(d, 2, '0'));
  }

  lemma DashedMonth(y: string, mm: string, dd: string)
    requires |mm| == 2
    ensures y + "-" + mm + "-" + dd == y + ['-', mm[0], mm[1], '-'] + dd
  {
    assert y + "-" + mm + "-" == y + ['-', mm[0], mm[1], '-'];
  }

  // ---------------------------------------------------------------------------
  // The page state

  class Page {
    const puzzles: seq<Puzzle>
    const benchmark: seq<BenchmarkPuzzle>
    /** The ids of the solves index. */
    const solves: set<string>
    var page: int
    var sortBy: SortField
    var sortDir: SortDir
    var benchPage: int
    var searchQuery: string
    var solvedPuzzles: set<string>
    var showSolvedOnly: bool
    /** What the last `saveSolvedPuzzles` stored. */
    var stored: Option<set<string>>

    constructor(puzzles: seq<Puzzle>, benchmark: seq<BenchmarkPuzzle>, solves: set<string>)
      ensures this.puzzles == puzzles && this.benchmark == benchmark && this.solves == solves
      ensures page == 0 && sortBy == Date && sortDir == Desc
      ensures benchPage == 0 && searchQuery == "" && solvedPuzzles == {} && !showSolvedOnly && stored.None?
    {
      this.puzzles := puzzles;
      this.benchmark := benchmark;
      this.solves := solves;
      page := 0;
      sortBy := Date;
      sortDir := Desc;
      benchPage := 0;
      searchQuery := "";
      solvedPuzzles := {};
      showSolvedOnly := false;
      stored := None;
    }

    /** The mount effect: `getSolvedPuzzles()`, given what local storage
        holds once parsed (`None` when nothing is stored or it fails to
        parse). */
    method LoadSolved(parsed: Option<seq<string>>)
      modifies this
      ensures solvedPuzzles == (if parsed.Some? then Elements(parsed.value) else {})
      ensures page == old(page) && sortBy == old(sortBy) && sortDir == old(sortDir) && benchPage == old(benchPage)
      ensures searchQuery == old(searchQuery) && showSolvedOnly == old(showSolvedOnly) && stored == old(stored)
    {
      if parsed.Some? {
        solvedPuzzles := Elements(parsed.value);
      } else {
        solvedPuzzles := {};
      }
    }

    function Sorted(): seq<Puzzle>
      reads this
    {
      SortedPuzzles(puzzles, sortBy, sortDir)
    }

    function TotalPages(): nat
      reads this
    {
      PageCount(|puzzles|, PageSize)
    }

    function Displayed(): seq<Puzzle>
      reads this
    {
      PageOf(Sorted(), page, PageSize)
    }

    function Filtered(): seq<BenchmarkPuzzle>
      reads this
    {
      FilteredBenchmark(benchmark, solves, showSolvedOnly, searchQuery)
    }

    function BenchTotalPages(): nat
      reads this
    {
      PageCount(|Filtered()|, BenchmarkPageSize)
    }

    function DisplayedBenchmark(): seq<BenchmarkPuzzle>
      reads this
    {
      PageOf(Filtered(), benchPage, BenchmarkPageSize)
    }

    /** `toggleSort(field)`: the same field flips the direction, another
        field is selected descending; the page goes back to the first. */
    method ToggleSort(field: SortField)
      modifies this
      ensures sortBy == field && page == 0
      ensures sortDir == if old(sortBy) == field then (if old(sortDir) == Desc then Asc else Desc) else Desc
      ensures benchPage == old(benchPage) && searchQuery == old(searchQuery) && solvedPuzzles == old(solvedPuzzles)
      ensures showSolvedOnly == old(showSolvedOnly) && stored == old(stored)
    {
      if sortBy == field {
        sortDir := if sortDir == Desc then Asc else Desc;
      } else {
        sortBy := field;
        sortDir := Desc;
      }
      page := 0;
    }

    /** `toggleSolved(puzzleId)`, which also stores the new set. */
    method ToggleSolved(puzzleId: string)
      modifies this
      ensures solvedPuzzles == Toggled(old(solvedPuzzles), puzzleId) && stored == Some(solvedPuzzles)
      ensures page == old(page) && sortBy == old(sortBy) && sortDir == old(sortDir) && benchPage == old(benchPage)
      ensures searchQuery == old(searchQuery) && showSolvedOnly == old(showSolvedOnly)
    {
      var next := solvedPuzzles;
      if puzzleId in next {
        next := next - {puzzleId};
      } else {
        next := next + {puzzleId};
      }
      stored := Some(next);
      solvedPuzzles := next;
    }

    /** The "First" button of the solved-puzzles table. */
    method FirstPage()
      modifies this
      ensures page == (if old(page) == 0 then old(page) else 0)
      ensures sortBy == old(sortBy) && sortDir == old(sortDir) && benchPage == old(benchPage)
      ensures searchQuery == old(searchQuery) && solvedPuzzles == old(solvedPuzzles)
      ensures showSolvedOnly == old(showSolvedOnly) && stored == old(stored)
    {
      if page != 0 {
        page := 0;
      }
    }

    /** The "Prev" button, disabled on the first page. */
    method Prev()
      modifies this
      ensures page == (if old(page) == 0 then 0 else PrevPage(old(page)))
      ensures sortBy == old(sortBy) && sortDir == old(sortDir) && benchPage == old(benchPage)
      ensures searchQuery == old(searchQuery) && solvedPuzzles == old(solvedPuzzles)
      ensures showSolvedOnly == old(showSolvedOnly) && stored == old(stored)
    {
      if page != 0 {
        page := PrevPage(page);
      }
    }

    /** The "Next" button, disabled on the last page. */
    method Next()
      modifies this
      ensures page == (if old(page) == TotalPages() - 1 then old(page) else NextPage(old(page), TotalPages()))
      ensures sortBy == old(sortBy) && sortDir == old(sortDir) && benchPage == old(benchPage)
      ensures searchQuery == old(searchQuery) && solvedPuzzles == old(solvedPuzzles)
      ensures showSolvedOnly == old(showSolvedOnly) && stored == old(stored)
    {
      if page != TotalPages() - 1 {
        page := NextPage(page, TotalPages());
      }
    }

    /** Typing in the search box: the query changes and the benchmark table
        goes back to its first page. */
    method SetSearchQuery(q: string)
      modifies this
      ensures searchQuery == q && benchPage == 0
      ensures page == old(page) && sortBy == old(sortBy) && sortDir == old(sortDir)
      ensures solvedPuzzles == old(solvedPuzzles) && showSolvedOnly == old(showSolvedOnly) && stored == old(stored)
    {
      searchQuery := q;
      benchPage := 0;
    }

    /** The "Show my solved only" checkbox. */
    method SetShowSolvedOnly(b: bool)
      modifies this
      ensures showSolvedOnly == b && benchPage == 0
      ensures page == old(page) && sortBy == old(sortBy) && sortDir == old(sortDir)
      ensures searchQuery == old(searchQuery) && solvedPuzzles == old(solvedPuzzles) && stored == old(stored)
    {
      showSolvedOnly := b;
      benchPage := 0;
    }

    /** The "First" button of the benchmark table. */
    method BenchFirst()
      modifies this
      ensures benchPage == (if old(benchPage) == 0 then old(benchPage) else 0)
      ensures page == old(page) && sortBy == old(sortBy) && sortDir == old(sortDir) && searchQuery == old(searchQuery)
      ensures solvedPuzzles == old(solvedPuzzles) && showSolvedOnly == old(showSolvedOnly) && stored == old(stored)
    {
      if benchPage != 0 {
        benchPage := 0;
      }
    }

    /** The "Prev" button of the benchmark table. */
    method BenchPrev()
      modifies this
      ensures benchPage == (if old(benchPage) == 0 then 0 else PrevPage(old(benchPage)))
      ensures page == old(page) && sortBy == old(sortBy) && sortDir == old(sortDir) && searchQuery == old(searchQuery)
      ensures solvedPuzzles == old(solvedPuzzles) && showSolvedOnly == old(showSolvedOnly) && stored == old(stored)
    {
      if benchPage != 0 {
        benchPage := PrevPage(benchPage);
      }
    }

    /** The "Next" button of the benchmark table, disabled from the last
        page on. */
    method BenchNext()
      modifies this
      ensures benchPage == (if old(benchPage) >= BenchTotalPages() - 1 then old(benchPage)
                            else NextPage(old(benchPage), BenchTotalPages()))
      ensures page == old(page) && sortBy == old(sortBy) && sortDir == old(sortDir) && searchQuery == old(searchQuery)
      ensures solvedPuzzles == old(solvedPuzzles) && showSolvedOnly == old(showSolvedOnly) && stored == old(stored)
    {
      if benchPage < BenchTotalPages() - 1 {
        benchPage := NextPage(benchPage, BenchTotalPages());
      }
    }
  }

  /** Whatever the buttons do, the pages shown stay within the list: a page
      in range stays in range for Prev and Next, and the benchmark page never
      goes below 0 nor past the last page. */
  lemma BenchPageStaysInRange(p: int, total: nat)
    requires 0 <= p && (total == 0 ==> p == 0) && (total > 0 ==> p < total)
    ensures var q := if p >= total - 1 then p else NextPage(p, total);
      0 <= q && (total > 0 ==> q < total)
    ensures var q := if p == 0 then 0 else PrevPage(p);
      0 <= q && (total > 0 ==> q < total)
  {
  }
}
