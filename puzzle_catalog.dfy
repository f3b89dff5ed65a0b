/** The offline catalog conversion (scripts/convert-puzzles-csv.js): the
    catalog is split into lines, the first line names the columns, every
    later line becomes a row keyed by the trimmed column names, rows marked
    as showing the solution or without a name are dropped, and the others
    become collection records in catalog order. */
module PuzzleCatalog {
  import opened Common

  /** One record of the puzzle collection. `difficulty` and `enjoyment`
      are `null` (None) when their column is empty, otherwise what
      `parseInt` makes of it, which may be NaN until the record is written
      to the collection file (`Written`). */
  datatype CollectionPuzzle = CollectionPuzzle(
    name: string, imageLink: string, solved: bool, author: string,
    difficulty: Option<ParsedInt>, enjoyment: Option<ParsedInt>,
    purchaseLink: string, price: string)

  /** A parsed line: column name to trimmed value. */
  type Row = map<string, string>

  /** `(values[idx] || '').trim()`: a missing column reads as empty. */
  function Field(values: seq<string>, idx: nat): string
  {
    if idx < |values| then Trim(values[idx]) else ""
  }

  /** The trimmed values of the first `n` columns of a line. */
  function Fields(values: seq<string>, n: nat): (r: seq<string>)
    ensures |r| == n && forall idx :: 0 <= idx < n ==> r[idx] == Field(values, idx)
  {
    seq(n, (idx: int) requires 0 <= idx < n => Field(values, idx))
  }

  /** The trimmed headers, the names the row object is keyed by. */
  function Keys(headers: seq<string>): (r: seq<string>)
    ensures |r| == |headers| && forall idx :: 0 <= idx < |headers| ==> r[idx] == Trim(headers[idx])
  {
    seq(|headers|, idx requires 0 <= idx < |headers| => Trim(headers[idx]))
  }

  /** The row after the first `k` steps of the `forEach`: each key is bound
      to the value in its column, a later key of the same name overwriting
      an earlier one. */
  function RowOf(keys: seq<string>, fields: seq<string>, k: nat): Row
    requires k <= |keys| && k <= |fields|
  {
    if k == 0 then map[]
    else RowOf(keys, fields, k - 1)[keys[k - 1] := fields[k - 1]]
  }

  /** The keys of a row are exactly the (trimmed) headers. */
  lemma {:induction false} RowOfKeys(keys: seq<string>, fields: seq<string>, k: nat, key: string)
    requires k <= |keys| && k <= |fields|
    ensures key in RowOf(keys, fields, k) <==> key in keys[..k]
  {
    if k > 0 {
      RowOfKeys(keys, fields, k - 1, key);
      assert keys[..k] == keys[..k - 1] + [keys[k - 1]];
    }
  }

  /** A key holds the value of the last column carrying its name. */
  lemma {:induction false} RowOfLast(keys: seq<string>, fields: seq<string>, k: nat, idx: nat)
    requires idx < k <= |keys| && k <= |fields|
    requires forall j :: idx < j < k ==> keys[j] != keys[idx]
    ensures keys[idx] in RowOf(keys, fields, k)
    ensures RowOf(keys, fields, k)[keys[idx]] == fields[idx]
  {
    if idx < k - 1 {
      RowOfLast(keys, fields, k - 1, idx);
    }
  }

  /** With distinct keys, every column is read under its own name. */
  lemma RowOfDistinct(keys: seq<string>, fields: seq<string>, idx: nat)
    requires Distinct(keys) && |keys| <= |fields| && idx < |keys|
    ensures keys[idx] in RowOf(keys, fields, |keys|)
    ensures RowOf(keys, fields, |keys|)[keys[idx]] == fields[idx]
  {
    RowOfLast(keys, fields, |keys|, idx);
  }

  /** The row the `forEach` builds from the header line and one line's
      values: every header is trimmed, and so is every value. */
  method BuildRow(headers: seq<string>, values: seq<string>) returns (row: Row)
    ensures row == RowOf(Keys(headers), Fields(values, |headers|), |headers|)
  {
    row := FillRow(Keys(headers), Fields(values, |headers|));
  }

  /** The assignments of the `forEach`, key by key. */
  method FillRow(keys: seq<string>, fields: seq<string>) returns (row: Row)
    requires |keys| <= |fields|
    ensures row == RowOf(keys, fields, |keys|)
  {
    row := map[];
    var idx := 0;
    while idx < |keys|
      invariant 0 <= idx <= |keys|
      invariant row == RowOf(keys, fields, idx)
    {
      row := row[keys[idx] := fields[idx]];
      idx := idx + 1;
    }
  }

  /** `row.key || ''`: an absent key reads as empty. */
  function Get(row: Row, key: string): string
  {
    if key in row then row[key] else ""
  }

  /** `row.key ? parseInt(row.key, 10) : null` */
  function NumberField(s: string): Option<ParsedInt>
  {
    if s == "" then None else Some(ParseInt(s))
  }

  /** The record built from a row. */
  function Record(row: Row): CollectionPuzzle
  {
    CollectionPuzzle(
      Get(row, "Name"), Get(row, "ImageLink"), Get(row, "Solved") == "Yes", Get(row, "Author"),
      NumberField(Get(row, "Difficulty")), NumberField(Get(row, "Enjoyment")),
      Get(row, "PurchaseLink"), Get(row, "Price"))
  }

  /** The row of one catalog line. */
  function RowFor(headers: seq<string>, line: string): Row
  {
    RowOf(Keys(headers), Fields(Split(line, ','), |headers|), |headers|)
  }

  /** Whether a row survives both skip rules. */
  predicate Keeps(row: Row)
  {
    Get(row, "ShowsSolution") != "Yes" && Get(row, "Name") != ""
  }

  /** What one row contributes: nothing when it shows the solution, nothing
      when its record has no name, its record otherwise. */
  function Kept(row: Row): seq<CollectionPuzzle>
  {
    if Get(row, "ShowsSolution") == "Yes" then []
    else
      var p := Record(row);
      if p.name != "" then [p] else []
  }

  /** A row contributes its record exactly when it passes both skip rules,
      and nothing else. */
  lemma KeptSpec(row: Row, p: CollectionPuzzle)
    ensures p in Kept(row) <==> Keeps(row) && p == Record(row)
    ensures |Kept(row)| <= 1
  {
  }

  /** What each line after the header line contributes. */
  function Contributions(headers: seq<string>, lines: seq<string>): (r: seq<seq<CollectionPuzzle>>)
    ensures |r| == |lines|
  {
    seq(|lines|, i requires 0 <= i < |lines| => Kept(RowFor(headers, lines[i])))
  }

  /** The contributions, one after the other. */
  function Flatten<T>(parts: seq<seq<T>>): seq<T>
  {
    if parts == [] then [] else Flatten(parts[..|parts| - 1]) + parts[|parts| - 1]
  }

  /** The whole conversion: trim, split into lines, take the headers from
      the first line and convert the rest. */
  function Catalog(csv: string): seq<CollectionPuzzle>
  {
    var lines := Split(Trim(csv), '\n');
    Flatten(Contributions(Split(lines[0], ','), lines[1..]))
  }

  /** The script: the header line, then the conversion loop over the
      remaining lines. */
  method Convert(csv: string) returns (puzzles: seq<CollectionPuzzle>, file: seq<CollectionPuzzle>)
    ensures puzzles == Catalog(csv)
    ensures file == WrittenAll(puzzles)
  {
    var lines := Split(Trim(csv), '\n');
    var headers := Split(lines[0], ',');
    puzzles := ConvertLines(headers, lines[1..]);
    file := WrittenAll(puzzles);
  }

  /** The `for` loop: each line is split on `,` into a row, then skipped or
      turned into a record and pushed. */
  method ConvertLines(headers: seq<string>, lines: seq<string>) returns (puzzles: seq<CollectionPuzzle>)
    ensures puzzles == Flatten(Contributions(headers, lines))
  {
    ghost var parts := Contributions(headers, lines);
    puzzles := [];
    for i := 0 to |lines|
      invariant puzzles == Flatten(parts[..i])
    {
      assert parts[..i + 1][..i] == parts[..i];
      var values := Split(lines[i], ',');
      var row := BuildRow(headers, values);
      assert parts[i] == Kept(row);
      if Get(row, "ShowsSolution") == "Yes" {
        continue;
      }
      var puzzle := Record(row);
      if puzzle.name != "" {
        puzzles := puzzles + [puzzle];
      }
    }
    assert parts[..|lines|] == parts;
  }

  /** Flattening consecutive blocks flattens each block in turn: kept rows
      appear in input order. */
  lemma {:induction false} FlattenConcat<T>(a: seq<seq<T>>, b: seq<seq<T>>)
    ensures Flatten(a + b) == Flatten(a) + Flatten(b)
    decreases |b|
  {
    if b == [] {
      assert a + b == a;
    } else {
      var init := b[..|b| - 1];
      assert (a + b)[..|a + b| - 1] == a + init;
      assert (a + b)[|a + b| - 1] == b[|b| - 1];
      FlattenConcat(a, init);
    }
  }

  /** An element of the flattening is an element of one of the parts. */
  lemma {:induction false} FlattenMembers<T>(parts: seq<seq<T>>, x: T)
    ensures x in Flatten(parts) <==> exists i :: 0 <= i < |parts| && x in parts[i]
    decreases |parts|
  {
    if parts != [] {
      var init := parts[..|parts| - 1];
      FlattenMembers(init, x);
      if exists i :: 0 <= i < |init| && x in init[i] {
        var i :| 0 <= i < |init| && x in init[i];
        assert parts[i] == init[i];
      }
      if exists i :: 0 <= i < |parts| && x in parts[i] {
        var i :| 0 <= i < |parts| && x in parts[i];
        if i < |parts| - 1 {
          assert parts[i] == init[i];
        }
      }
    }
  }

  /** Parts of one element each flatten to those elements. */
  lemma {:induction false} FlattenSingletons<T>(parts: seq<seq<T>>, xs: seq<T>)
    requires |parts| == |xs| && forall i :: 0 <= i < |xs| ==> parts[i] == [xs[i]]
    ensures Flatten(parts) == xs
    decreases |xs|
  {
    if xs != [] {
      var n := |xs| - 1;
      FlattenSingletons(parts[..n], xs[..n]);
      assert xs == xs[..n] + [xs[n]];
    }
  }

  /** Every converted record comes from a line that passes both skip rules,
      and every such line gives its record. */
  lemma CatalogMembers(headers: seq<string>, lines: seq<string>, p: CollectionPuzzle)
    ensures p in Flatten(Contributions(headers, lines)) <==>
      exists i :: 0 <= i < |lines| && Keeps(RowFor(headers, lines[i])) && p == Record(RowFor(headers, lines[i]))
  {
    var parts := Contributions(headers, lines);
    FlattenMembers(parts, p);
    forall i | 0 <= i < |lines|
      ensures p in parts[i] <==> Keeps(RowFor(headers, lines[i])) && p == Record(RowFor(headers, lines[i]))
    {
      KeptSpec(RowFor(headers, lines[i]), p);
    }
  }

  /** No converted record is nameless, and each is the record of a line
      that does not show the solution. */
  lemma CatalogKeepsRules(headers: seq<string>, lines: seq<string>, p: CollectionPuzzle)
    requires p in Flatten(Contributions(headers, lines))
    ensures p.name != ""
    ensures exists i :: 0 <= i < |lines| && (Get(RowFor(headers, lines[i]), "ShowsSolution") != "Yes"
                                              && p == Record(RowFor(headers, lines[i])))
  {
    CatalogMembers(headers, lines, p);
  }

  /** There are never more records than lines. */
  lemma {:induction false} FlattenShort(parts: seq<seq<CollectionPuzzle>>)
    requires forall i :: 0 <= i < |parts| ==> |parts[i]| <= 1
    ensures |Flatten(parts)| <= |parts|
    decreases |parts|
  {
    if parts != [] {
      FlattenShort(parts[..|parts| - 1]);
    }
  }

  // ---------------------------------------------------------------------------
  // The report

  datatype Summary = Summary(total: nat, solved: nat, unsolved: nat)

  predicate Solved(p: CollectionPuzzle)
  {
    p.solved
  }

  predicate Unsolved(p: CollectionPuzzle)
  {
    !p.solved
  }

  /** Every record is either solved or unsolved. */
  lemma {:induction false} SolvedSplit(ps: seq<CollectionPuzzle>)
    ensures |Filter(ps, Solved)| + |Filter(ps, Unsolved)| == |ps|
  {
    if ps != [] {
      SolvedSplit(ps[1..]);
    }
  }

  /** The counts the script reports after writing the collection: the
      unsolved count `total - solved` is the number of unsolved records. */
  function Report(puzzles: seq<CollectionPuzzle>): (r: Summary)
    ensures r.solved + r.unsolved == r.total == |puzzles|
    ensures r.solved == |Filter(puzzles, Solved)| && r.unsolved == |Filter(puzzles, Unsolved)|
  {
    var solved := Count(puzzles, Solved);
    SolvedSplit(puzzles);
    Summary(|puzzles|, solved, |puzzles| - solved)
  }

  // ---------------------------------------------------------------------------
  // The collection file

  /** A record without NaN in its number fields. */
  predicate NoNaN(p: CollectionPuzzle)
  {
    p.difficulty != Some(NaN) && p.enjoyment != Some(NaN)
  }

  /** A number field once `JSON.stringify` has written it: NaN is written
      as `null`, every other value as itself. */
  function JsonNumber(n: Option<ParsedInt>): (r: Option<ParsedInt>)
    ensures r != Some(NaN)
    ensures r == n <==> n != Some(NaN)
    ensures n == Some(NaN) ==> r == None
  {
    if n == Some(NaN) then None else n
  }

  /** A record as the collection file holds it: its number fields written
      by `JSON.stringify`, everything else unchanged. */
  function Written(p: CollectionPuzzle): (r: CollectionPuzzle)
    ensures NoNaN(r)
    ensures r.(difficulty := p.difficulty, enjoyment := p.enjoyment) == p
    ensures r == p <==> NoNaN(p)
  {
    p.(difficulty := JsonNumber(p.difficulty), enjoyment := JsonNumber(p.enjoyment))
  }

  /** `JSON.stringify(puzzles)` read back: the records in order, written
      one by one, so the file holds no NaN and a collection without NaN is
      written as it is. */
  function WrittenAll(ps: seq<CollectionPuzzle>): (r: seq<CollectionPuzzle>)
    ensures |r| == |ps|
    ensures forall i :: 0 <= i < |r| ==> r[i] == Written(ps[i])
    ensures forall i :: 0 <= i < |r| ==> NoNaN(r[i])
    ensures (forall i :: 0 <= i < |ps| ==> NoNaN(ps[i])) ==> r == ps
  {
    seq(|ps|, i requires 0 <= i < |ps| => Written(ps[i]))
  }

  /** Writing keeps every solved flag, so the file has as many solved
      records as the collection the script counts. */
  lemma {:induction false} WrittenSolvedCount(ps: seq<CollectionPuzzle>)
    ensures Count(WrittenAll(ps), Solved) == Count(ps, Solved)
  {
    if ps != [] {
      WrittenSolvedCount(ps[1..]);
      assert WrittenAll(ps)[1..] == WrittenAll(ps[1..]);
    }
  }

  // ---------------------------------------------------------------------------
  // Writing a collection as a catalog and converting it back

  /** How a number column is written: empty for `null`. */
  function NumberText(n: Option<ParsedInt>): string
  {
    match n
    case Some(Int(v)) => IntToString(v)
    case _ => ""
  }

  /** The text a record puts in column `h`; any other column, the
      `ShowsSolution` column among them, is left empty. */
  function ColumnText(p: CollectionPuzzle, h: string): string
  {
    if h == "Name" then p.name
    else if h == "ImageLink" then p.imageLink
    else if h == "Solved" then (if p.solved then "Yes" else "No")
    else if h == "Author" then p.author
    else if h == "Difficulty" then NumberText(p.difficulty)
    else if h == "Enjoyment" then NumberText(p.enjoyment)
    else if h == "PurchaseLink" then p.purchaseLink
    else if h == "Price" then p.price
    else ""
  }

  function Columns(p: CollectionPuzzle, headers: seq<string>): (r: seq<string>)
    ensures |r| == |headers| && forall i :: 0 <= i < |headers| ==> r[i] == ColumnText(p, headers[i])
  {
    seq(|headers|, i requires 0 <= i < |headers| => ColumnText(p, headers[i]))
  }

  function LineOf(p: CollectionPuzzle, headers: seq<string>): string
  {
    Join(Columns(p, headers), ',')
  }

  function Lines(ps: seq<CollectionPuzzle>, headers: seq<string>): (r: seq<string>)
    ensures |r| == |ps|
  {
    if ps == [] then [] else Lines(ps[..|ps| - 1], headers) + [LineOf(ps[|ps| - 1], headers)]
  }

  /** The catalog written for a collection under a header line. */
  function CsvOf(ps: seq<CollectionPuzzle>, headers: seq<string>): string
  {
    Join(CsvLinesOf(ps, headers), '\n')
  }

  /** The header line followed by one line per record. */
  function CsvLinesOf(ps: seq<CollectionPuzzle>, headers: seq<string>): (r: seq<string>)
    ensures |r| == |ps| + 1 && r[0] == Join(headers, ',') && r[1..] == Lines(ps, headers)
  {
    [Join(headers, ',')] + Lines(ps, headers)
  }

  /** No white space at either end. */
  predicate Clean(s: string)
  {
    s == [] || (!IsSpace(s[0]) && !IsSpace(s[|s| - 1]))
  }

  /** A text the simple parser reads back unchanged: no separator and no
      surrounding white space. */
  predicate PlainText(f: string)
  {
    ',' !in f && '\n' !in f && Clean(f)
  }

  /** A header line the simple parser reads back: at least two distinct
      plain names. */
  predicate Columned(headers: seq<string>)
  {
    |headers| >= 2 && Distinct(headers) && forall i :: 0 <= i < |headers| ==> PlainText(headers[i])
  }

  /** A header line the record columns can be written under, in any order
      and beside any other columns. */
  predicate Layout(headers: seq<string>)
  {
    Columned(headers)
    && "Name" in headers && "ImageLink" in headers && "Solved" in headers && "Author" in headers
    && "Difficulty" in headers && "Enjoyment" in headers && "PurchaseLink" in headers && "Price" in headers
  }

  /** A record the catalog format can carry: named, no text with a
      separator or surrounding white space, no NaN. */
  predicate Writable(p: CollectionPuzzle)
  {
    p.name != "" && PlainText(p.name) && PlainText(p.imageLink) && PlainText(p.author)
    && PlainText(p.purchaseLink) && PlainText(p.price) && NoNaN(p)
  }

  /** Converting the catalog written for a collection of writable records
      gives back the collection, whatever the column layout. */
  lemma CatalogRoundTrip(ps: seq<CollectionPuzzle>, headers: seq<string>)
    requires Layout(headers)
    requires forall i :: 0 <= i < |ps| ==> Writable(ps[i])
    ensures Catalog(CsvOf(ps, headers)) == ps
  {
    CsvLines(ps, headers);
    HeaderSplit(headers);
    RecordsOfLines(ps, headers);
  }

  /** The file written from the catalog of such a collection is the
      collection itself. */
  lemma FileRoundTrip(ps: seq<CollectionPuzzle>, headers: seq<string>)
    requires Layout(headers)
    requires forall i :: 0 <= i < |ps| ==> Writable(ps[i])
    ensures WrittenAll(Catalog(CsvOf(ps, headers))) == ps
  {
    CatalogRoundTrip(ps, headers);
  }

  /** A written catalog is split into its header line and record lines. */
  lemma CsvLines(ps: seq<CollectionPuzzle>, headers: seq<string>)
    requires Columned(headers)
    requires forall i :: 0 <= i < |ps| ==> Writable(ps[i])
    ensures Split(Trim(CsvOf(ps, headers)), '\n') == CsvLinesOf(ps, headers)
  {
    CsvTrimmed(ps, headers);
    CsvLinesPlain(ps, headers);
    JoinSplit(CsvLinesOf(ps, headers), '\n');
  }

  /** Every written line is non-empty, clean and free of line breaks. */
  lemma CsvLinesPlain(ps: seq<CollectionPuzzle>, headers: seq<string>)
    requires Columned(headers)
    requires forall i :: 0 <= i < |ps| ==> Writable(ps[i])
    ensures var lines := CsvLinesOf(ps, headers);
      forall i :: 0 <= i < |lines| ==> '\n' !in lines[i] && Clean(lines[i]) && lines[i] != []
  {
    var lines := CsvLinesOf(ps, headers);
    LayoutLine(headers);
    LinesPlain(ps, headers);
    forall i | 0 <= i < |lines|
      ensures '\n' !in lines[i] && Clean(lines[i]) && lines[i] != []
    {
      if i > 0 {
        assert lines[i] == Lines(ps, headers)[i - 1];
      }
    }
  }

  lemma HeaderSplit(headers: seq<string>)
    requires Columned(headers)
    ensures Split(Join(headers, ','), ',') == headers
  {
    JoinSplit(headers, ',');
  }

  lemma RecordsOfLines(ps: seq<CollectionPuzzle>, headers: seq<string>)
    requires Layout(headers)
    requires forall i :: 0 <= i < |ps| ==> Writable(ps[i])
    ensures Flatten(Contributions(headers, Lines(ps, headers))) == ps
  {
    var parts := Contributions(headers, Lines(ps, headers));
    forall i | 0 <= i < |ps|
      ensures parts[i] == [ps[i]]
    {
      LinesAt(ps, headers, i);
      KeptLine(ps[i], headers);
    }
    FlattenSingletons(parts, ps);
  }

  lemma {:induction false} LinesAt(ps: seq<CollectionPuzzle>, headers: seq<string>, i: nat)
    requires i < |ps|
    ensures Lines(ps, headers)[i] == LineOf(ps[i], headers)
    decreases |ps|
  {
    if i < |ps| - 1 {
      LinesAt(ps[..|ps| - 1], headers, i);
    }
  }

  /** One written line converts back to its record. */
  lemma KeptLine(p: CollectionPuzzle, headers: seq<string>)
    requires Layout(headers) && Writable(p)
    ensures Kept(RowFor(headers, LineOf(p, headers))) == [p]
  {
    var row := RowFor(headers, LineOf(p, headers));
    ReadRecord(p, headers);
    ColumnFacts(p);
    NumberRoundTrip(p.difficulty);
    NumberRoundTrip(p.enjoyment);
    KeptOf(row, p);
  }

  /** A row whose columns read as the fields of a named record `p`, and that
      does not show the solution, contributes exactly `p`. */
  lemma KeptOf(row: Row, p: CollectionPuzzle)
    requires Get(row, "Name") == p.name != "" && Get(row, "ImageLink") == p.imageLink
    requires (Get(row, "Solved") == "Yes") == p.solved && Get(row, "Author") == p.author
    requires NumberField(Get(row, "Difficulty")) == p.difficulty
    requires NumberField(Get(row, "Enjoyment")) == p.enjoyment
    requires Get(row, "PurchaseLink") == p.purchaseLink && Get(row, "Price") == p.price
    requires Get(row, "ShowsSolution") != "Yes"
    ensures Kept(row) == [p]
  {
  }

  /** The record columns of a written line, and its empty `ShowsSolution`. */
  lemma ReadRecord(p: CollectionPuzzle, headers: seq<string>)
    requires Layout(headers) && Writable(p)
    ensures var row := RowFor(headers, LineOf(p, headers));
      && Get(row, "Name") == ColumnText(p, "Name")
      && Get(row, "ImageLink") == ColumnText(p, "ImageLink")
      && Get(row, "Solved") == ColumnText(p, "Solved")
      && Get(row, "Author") == ColumnText(p, "Author")
      && Get(row, "Difficulty") == ColumnText(p, "Difficulty")
      && Get(row, "Enjoyment") == ColumnText(p, "Enjoyment")
      && Get(row, "PurchaseLink") == ColumnText(p, "PurchaseLink")
      && Get(row, "Price") == ColumnText(p, "Price")
      && Get(row, "ShowsSolution") == ColumnText(p, "ShowsSolution")
  {
    ReadColumn(p, headers, "Name");
    ReadColumn(p, headers, "ImageLink");
    ReadColumn(p, headers, "Solved");
    ReadColumn(p, headers, "Author");
    ReadColumn(p, headers, "Difficulty");
    ReadColumn(p, headers, "Enjoyment");
    ReadColumn(p, headers, "PurchaseLink");
    ReadColumn(p, headers, "Price");
    ReadColumn(p, headers, "ShowsSolution");
  }

  /** What a record writes in each of the catalog's columns. */
  lemma ColumnFacts(p: CollectionPuzzle)
    ensures ColumnText(p, "Name") == p.name && ColumnText(p, "ImageLink") == p.imageLink
    ensures (ColumnText(p, "Solved") == "Yes") == p.solved && ColumnText(p, "Author") == p.author
    ensures ColumnText(p, "Difficulty") == NumberText(p.difficulty)
    ensures ColumnText(p, "Enjoyment") == NumberText(p.enjoyment)
    ensures ColumnText(p, "PurchaseLink") == p.purchaseLink && ColumnText(p, "Price") == p.price
    ensures ColumnText(p, "ShowsSolution") == ""
  {
  }

  /** Reading column `h` of a written line gives what the record wrote
      there, and nothing for a column the header line lacks. */
  lemma ReadColumn(p: CollectionPuzzle, headers: seq<string>, h: string)
    requires Columned(headers) && Writable(p)
    ensures Get(RowFor(headers, LineOf(p, headers)), h) == if h in headers then ColumnText(p, h) else ""
  {
    var cols := Columns(p, headers);
    LineFields(p, headers);
    if h in headers {
      var idx :| 0 <= idx < |headers| && headers[idx] == h;
      RowOfDistinct(headers, cols, idx);
    } else {
      RowOfKeys(headers, cols, |headers|, h);
      assert headers[..|headers|] == headers;
    }
  }

  /** The row of a written line binds every header to its column. */
  lemma LineFields(p: CollectionPuzzle, headers: seq<string>)
    requires Columned(headers) && Writable(p)
    ensures RowFor(headers, LineOf(p, headers)) == RowOf(headers, Columns(p, headers), |headers|)
  {
    LineSplit(p, headers);
    LineFieldsTrimmed(p, headers);
    LayoutKeys(headers);
  }

  lemma LineSplit(p: CollectionPuzzle, headers: seq<string>)
    requires headers != [] && Writable(p)
    ensures Split(LineOf(p, headers), ',') == Columns(p, headers)
  {
    ColumnsPlain(p, headers);
    JoinSplit(Columns(p, headers), ',');
  }

  lemma LineFieldsTrimmed(p: CollectionPuzzle, headers: seq<string>)
    requires Writable(p)
    ensures Fields(Columns(p, headers), |headers|) == Columns(p, headers)
  {
    ColumnsPlain(p, headers);
    CleanFields(Columns(p, headers));
  }

  /** A written number column reads back as the number. */
  lemma NumberRoundTrip(n: Option<ParsedInt>)
    requires n != Some(NaN)
    ensures NumberField(NumberText(n)) == n
  {
    if n.Some? {
      ParseIntRoundTrip(n.value.value);
    }
  }

  lemma NumberTextPlain(n: Option<ParsedInt>)
    ensures PlainText(NumberText(n))
  {
    if n.Some? && n.value.Int? {
      var v := n.value.value;
      var s := IntToString(v);
      var d := NatToString(if v < 0 then -v else v);
      assert forall i :: 0 <= i < |d| ==> IsDigit(d[i]);
      assert s[|s| - 1] == d[|d| - 1];
      assert s[0] == '-' || s[0] == d[0];
      assert forall i :: 0 <= i < |s| ==> s[i] == '-' || IsDigit(s[i]);
    }
  }

  /** Every column a writable record writes is plain text. */
  lemma ColumnTextPlain(p: CollectionPuzzle, h: string)
    requires Writable(p)
    ensures PlainText(ColumnText(p, h))
  {
    if h == "Difficulty" {
      NumberTextPlain(p.difficulty);
    } else if h == "Enjoyment" {
      NumberTextPlain(p.enjoyment);
    }
  }

  lemma ColumnsPlain(p: CollectionPuzzle, headers: seq<string>)
    requires Writable(p)
    ensures forall i :: 0 <= i < |headers| ==> PlainText(Columns(p, headers)[i])
  {
    forall i | 0 <= i < |headers|
      ensures PlainText(Columns(p, headers)[i])
    {
      ColumnTextPlain(p, headers[i]);
    }
  }

  /** The header line splits back into the headers, and it starts and ends
      with no white space. */
  lemma LayoutLine(headers: seq<string>)
    requires Columned(headers)
    ensures Split(Join(headers, ','), ',') == headers
    ensures '\n' !in Join(headers, ',')
    ensures Join(headers, ',') != [] && Clean(Join(headers, ','))
  {
    JoinSplit(headers, ',');
    JoinAvoids(headers, ',', '\n');
    JoinClean(headers, ',');
  }

  /** The headers of a layout are their own trimmed names. */
  lemma LayoutKeys(headers: seq<string>)
    requires forall i :: 0 <= i < |headers| ==> Clean(headers[i])
    ensures Keys(headers) == headers
  {
    forall i | 0 <= i < |headers|
      ensures Trim(headers[i]) == headers[i]
    {
      TrimNoSpace(headers[i]);
    }
  }

  /** Clean columns are read back as they are. */
  lemma CleanFields(cols: seq<string>)
    requires forall i :: 0 <= i < |cols| ==> Clean(cols[i])
    ensures Fields(cols, |cols|) == cols
  {
    forall i | 0 <= i < |cols|
      ensures Trim(cols[i]) == cols[i]
    {
      TrimNoSpace(cols[i]);
    }
  }

  /** Joining pieces that avoid a character other than the separator gives a
      string that avoids it. */
  lemma {:induction false} JoinAvoids(parts: seq<string>, sep: char, c: char)
    requires c != sep && forall i :: 0 <= i < |parts| ==> c !in parts[i]
    ensures c !in Join(parts, sep)
    decreases |parts|
  {
    if |parts| > 1 {
      JoinAvoids(parts[1..], sep, c);
    }
  }

  /** Joining clean pieces with a separator that is no white space gives a
      clean string, and a non-empty one from two pieces on. */
  lemma {:induction false} JoinClean(parts: seq<string>, sep: char)
    requires !IsSpace(sep) && forall i :: 0 <= i < |parts| ==> Clean(parts[i])
    ensures Clean(Join(parts, sep))
    ensures |parts| >= 2 ==> Join(parts, sep) != []
    decreases |parts|
  {
    if |parts| > 1 {
      var rest := Join(parts[1..], sep);
      JoinClean(parts[1..], sep);
      var s := parts[0] + [sep] + rest;
      assert s[0] == if parts[0] == [] then sep else parts[0][0];
      assert s[|s| - 1] == if rest == [] then sep else rest[|rest| - 1];
    }
  }

  lemma {:induction false} LinesPlain(ps: seq<CollectionPuzzle>, headers: seq<string>)
    requires Columned(headers)
    requires forall i :: 0 <= i < |ps| ==> Writable(ps[i])
    ensures forall i :: 0 <= i < |ps| ==> '\n' !in Lines(ps, headers)[i]
    ensures forall i :: 0 <= i < |ps| ==> Clean(Lines(ps, headers)[i]) && Lines(ps, headers)[i] != []
    decreases |ps|
  {
    if ps != [] {
      var p := ps[|ps| - 1];
      var cols := Columns(p, headers);
      LinesPlain(ps[..|ps| - 1], headers);
      ColumnsPlain(p, headers);
      JoinAvoids(cols, ',', '\n');
      JoinClean(cols, ',');
    }
  }

  /** A written catalog has no white space to trim. */
  lemma CsvTrimmed(ps: seq<CollectionPuzzle>, headers: seq<string>)
    requires Columned(headers)
    requires forall i :: 0 <= i < |ps| ==> Writable(ps[i])
    ensures Trim(CsvOf(ps, headers)) == CsvOf(ps, headers)
  {
    CsvLinesPlain(ps, headers);
    JoinEnds(CsvLinesOf(ps, headers), '\n');
    TrimNoSpace(CsvOf(ps, headers));
  }

  /** A join of non-empty clean pieces starts with the first piece's first
      character and ends with the last piece's last character. */
  lemma {:induction false} JoinEnds(parts: seq<string>, sep: char)
    requires parts != [] && forall i :: 0 <= i < |parts| ==> Clean(parts[i]) && parts[i] != []
    ensures Clean(Join(parts, sep)) && Join(parts, sep) != []
    decreases |parts|
  {
    if |parts| > 1 {
      var rest := Join(parts[1..], sep);
      JoinEnds(parts[1..], sep);
      var s := parts[0] + [sep] + rest;
      assert s[0] == parts[0][0];
      assert s[|s| - 1] == rest[|rest| - 1];
    }
  }
}
