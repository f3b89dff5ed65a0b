/** The mechanical puzzle gallery (src/pages/PuzzleCollection.tsx): the
    collection the catalog converter writes, narrowed by the solved /
    unsolved selector and a case-insensitive search on name and author, and
    the counts shown beside the selector. */
module PuzzleCollection {
  import opened Common
  import opened PuzzleCatalog

  /** `type FilterType = 'all' | 'solved' | 'unsolved'` */
  datatype FilterType = ShowAll | ShowSolved | ShowUnsolved

  /** The search test: an empty query keeps everything, any other query
      keeps the entries whose name or author contains it, ignoring case. */
  predicate Matches(p: CollectionPuzzle, query: string)
  {
    query == "" || IncludesIgnoringCase(p.name, query) || IncludesIgnoringCase(p.author, query)
  }

  /** The test inside `puzzles.filter(...)`, in the order of its checks. */
  predicate Shown(p: CollectionPuzzle, filter: FilterType, query: string)
  {
    if filter == ShowSolved && !p.solved then false
    else if filter == ShowUnsolved && p.solved then false
    else if query != "" then
      var q := ToLower(query);
      Includes(ToLower(p.name), q) || Includes(ToLower(p.author), q)
    else true
  }

  /** The selector's rule and the search rule, stated separately: an entry
      is shown exactly when its solved flag agrees with the selector and it
      matches the query. */
  lemma ShownIff(p: CollectionPuzzle, filter: FilterType, query: string)
    ensures Shown(p, filter, query)
        <==> (filter == ShowSolved ==> p.solved) && (filter == ShowUnsolved ==> !p.solved) && Matches(p, query)
  {
  }

  /** `filteredPuzzles`. */
  function Filtered(puzzles: seq<CollectionPuzzle>, filter: FilterType, query: string)
    : (r: seq<CollectionPuzzle>)
    ensures |r| <= |puzzles|
    ensures forall i :: 0 <= i < |r| ==> r[i] in puzzles && Shown(r[i], filter, query)
    ensures forall i :: 0 <= i < |puzzles| && Shown(puzzles[i], filter, query) ==> puzzles[i] in r
  {
    Filter(puzzles, (p: CollectionPuzzle) => Shown(p, filter, query))
  }

  /** `'solved'` shows only solved entries, `'unsolved'` only unsolved ones,
      and a non-empty query only entries whose name or author contains it,
      ignoring case. */
  lemma FilteredRules(puzzles: seq<CollectionPuzzle>, filter: FilterType, query: string)
    ensures var r := Filtered(puzzles, filter, query);
      (filter == ShowSolved ==> forall i :: 0 <= i < |r| ==> r[i].solved)
      && (filter == ShowUnsolved ==> forall i :: 0 <= i < |r| ==> !r[i].solved)
      && (query != "" ==> forall i :: 0 <= i < |r| ==>
            IncludesIgnoringCase(r[i].name, query) || IncludesIgnoringCase(r[i].author, query))
  {
    var r := Filtered(puzzles, filter, query);
    forall i | 0 <= i < |r|
      ensures (filter == ShowSolved ==> r[i].solved) && (filter == ShowUnsolved ==> !r[i].solved) && Matches(r[i], query)
    {
      ShownIff(r[i], filter, query);
    }
  }

  /** `'all'` with an empty search shows the whole collection. */
  lemma FilteredAll(puzzles: seq<CollectionPuzzle>)
    ensures Filtered(puzzles, ShowAll, "") == puzzles
  {
    FilterAll(puzzles, (p: CollectionPuzzle) => Shown(p, ShowAll, ""));
  }

  /** `a` is `b` with some elements left out, the rest in their order. */
  predicate Subsequence<T(==)>(a: seq<T>, b: seq<T>)
    decreases |b|
  {
    if a == [] then true
    else if b == [] then false
    else if a[0] == b[0] then Subsequence(a[1..], b[1..])
    else Subsequence(a, b[1..])
  }

  /** A filtered list keeps the entries it shows in the order of the
      collection. */
  lemma {:induction false} FilterSubsequence<T>(s: seq<T>, p: T -> bool)
    ensures Subsequence(Filter(s, p), s)
  {
    if s != [] {
      FilterSubsequence(s[1..], p);
      if p(s[0]) {
        assert Filter(s, p) == [s[0]] + Filter(s[1..], p);
        assert Filter(s, p)[1..] == Filter(s[1..], p);
      } else {
        assert Filter(s, p) == Filter(s[1..], p);
      }
    }
  }

  /** The list shown is an order-preserving selection of the collection,
      and filtering a collection made of two parts filters each part. */
  lemma FilteredOrder(a: seq<CollectionPuzzle>, b: seq<CollectionPuzzle>, filter: FilterType, query: string)
    ensures Subsequence(Filtered(a, filter, query), a)
    ensures Filtered(a + b, filter, query) == Filtered(a, filter, query) + Filtered(b, filter, query)
  {
    var p := (x: CollectionPuzzle) => Shown(x, filter, query);
    FilterSubsequence(a, p);
    FilterConcat(a, b, p);
  }

  /** `solvedCount`. */
  function SolvedCount(puzzles: seq<CollectionPuzzle>): nat
  {
    Count(puzzles, Solved)
  }

  /** The three selector labels: `All (totalCount)`, `Solved (solvedCount)`
      and `Unsolved (totalCount - solvedCount)`; the unsolved label is the
      number of unsolved entries, so the labels add up. */
  function Labels(puzzles: seq<CollectionPuzzle>): (r: Summary)
    ensures r.total == |puzzles| && r.solved + r.unsolved == r.total
    ensures r.solved == |Filtered(puzzles, ShowSolved, "")|
    ensures r.unsolved == |Filtered(puzzles, ShowUnsolved, "")|
  {
    SolvedSplit(puzzles);
    SelectorCounts(puzzles);
    Summary(|puzzles|, SolvedCount(puzzles), |puzzles| - SolvedCount(puzzles))
  }

  /** With no query, `'solved'` shows the solved entries and `'unsolved'`
      the unsolved ones. */
  lemma SelectorCounts(puzzles: seq<CollectionPuzzle>)
    ensures Filtered(puzzles, ShowSolved, "") == Filter(puzzles, Solved)
    ensures Filtered(puzzles, ShowUnsolved, "") == Filter(puzzles, Unsolved)
  {
    FilterSame(puzzles, (p: CollectionPuzzle) => Shown(p, ShowSolved, ""), Solved);
    FilterSame(puzzles, (p: CollectionPuzzle) => Shown(p, ShowUnsolved, ""), Unsolved);
  }

  /** For any query, `'solved'` and `'unsolved'` split what `'all'` shows. */
  lemma {:induction false} SelectorSplit(puzzles: seq<CollectionPuzzle>, query: string)
    ensures |Filtered(puzzles, ShowSolved, query)| + |Filtered(puzzles, ShowUnsolved, query)|
         == |Filtered(puzzles, ShowAll, query)|
  {
    if puzzles != [] {
      SelectorSplit(puzzles[1..], query);
    }
  }

  /** The gallery reads the file the converter writes: its entries hold no
      NaN, and its selector labels are the counts the converter reports. */
  lemma GalleryOfFile(csv: string, filter: FilterType, query: string)
    ensures var shown := Filtered(WrittenAll(Catalog(csv)), filter, query);
      forall i :: 0 <= i < |shown| ==> NoNaN(shown[i])
    ensures Labels(WrittenAll(Catalog(csv))) == Report(Catalog(csv))
  {
    WrittenSolvedCount(Catalog(csv));
  }
}
