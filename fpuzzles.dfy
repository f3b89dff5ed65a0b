/** The f-puzzles format (src/components/sudoku/fpuzzles.ts): the payload is
    picked out of an f-puzzles or SudokuPad link, decompressed and parsed,
    and the puzzle's two-dimensional grid is flattened into the row-major
    cell list the grid component draws. */
module FPuzzles {
  import opened Common
  import opened UrlPatterns

  /** A cell of the f-puzzles JSON; absent fields are `None`. */
  datatype FCell = FCell(value: Option<int>, given: Option<bool>)

  /** A grid row; `None` stands for a `null` entry, and indexes past the end
      are missing too. */
  type FRow = seq<Option<FCell>>

  /** `FPuzzlesData`. */
  datatype FData = FData(size: int, grid: seq<Option<FRow>>, title: Option<string>,
                         author: Option<string>, ruleset: Option<string>)

  /** The parsed JSON before the defaults of `decodeFPuzzles` are applied:
      each field it has, `None` for each it lacks (a number or a string
      lacks them all). */
  datatype RawData = RawData(size: Option<int>, grid: Option<seq<Option<FRow>>>, title: Option<string>,
                             author: Option<string>, ruleset: Option<string>)

  /** A drawn cell: its digit, if any, and whether it is a given. */
  datatype Cell = Cell(value: Option<int>, isGiven: bool)

  /** `{ size, cells }`. */
  datatype GridData = GridData(size: int, cells: seq<Cell>)

  /** `/sudokupad\.app\/([^?]+)/` */
  const SudokuPadDataPattern := Pattern({}, "sudokupad.app/", "", NoneOf({'?'}), None)

  // ---------------------------------------------------------------------------
  // decodeFPuzzles

  /** The compressed text `decodeFPuzzles` hands to the decompressor, or
      `None` when it returns `null` before that: an f-puzzles link gives its
      `load` value (and no `load` value means `null`), then a SudokuPad link
      gives the text after `sudokupad.app/` up to the first `?`. */
  function Payload(input: string): Option<string>
  {
    PayloadOf(Trim(input))
  }

  function PayloadOf(t: string): Option<string>
  {
    var fromFPuzzles :=
      if Includes(t, "f-puzzles.com") then Match(t, LoadPattern) else Some(t);
    match fromFPuzzles
    case None => None
    case Some(c) =>
      if Includes(c, "sudokupad.app") && Match(c, SudokuPadDataPattern).Some? then
        Match(c, SudokuPadDataPattern)
      else Some(c)
  }

  /** `data.size || 9`, `data.grid || []`, the rest as parsed. */
  function WithDefaults(raw: RawData): (d: FData)
    ensures d.size != 0 && (raw.size.Some? && raw.size.value != 0 ==> d.size == raw.size.value)
    ensures raw.grid.Some? ==> d.grid == raw.grid.value
    ensures raw.grid.None? ==> d.grid == []
    ensures d.title == raw.title && d.author == raw.author && d.ruleset == raw.ruleset
  {
    FData(if raw.size.Some? && raw.size.value != 0 then raw.size.value else 9,
          if raw.grid.Some? then raw.grid.value else [],
          raw.title, raw.author, raw.ruleset)
  }

  /** What `decodeFPuzzles` returns, given the decompressor (`None` when it
      throws) and the JSON parser (`None` exactly when `JSON.parse` throws
      or gives `null`, whose `.size` throws; any other value, an object or
      not, gives the fields it has); a falsy decompression result (absent
      or empty) gives `null`. */
  function Decoded(input: string, decompress: string -> Option<string>, parse: string -> Option<RawData>): Option<FData>
  {
    match Payload(input)
    case None => None
    case Some(c) =>
      match decompress(c)
      case None => None
      case Some(json) =>
        if json == "" then None
        else match parse(json)
          case None => None
          case Some(raw) => Some(WithDefaults(raw))
  }

  /** `decodeFPuzzles(input)`, step by step on the variable `compressed`. */
  method DecodeFPuzzles(input: string, decompress: string -> Option<string>, parse: string -> Option<RawData>)
    returns (r: Option<FData>)
    ensures r == Decoded(input, decompress, parse)
  {
    var compressed := Trim(input);
    if Includes(compressed, "f-puzzles.com") {
      var m := Match(compressed, LoadPattern);
      if m.Some? {
        compressed := m.value;
      } else {
        return None;
      }
    }
    if Includes(compressed, "sudokupad.app") {
      var m := Match(compressed, SudokuPadDataPattern);
      if m.Some? {
        compressed := m.value;
      }
    }
    assert Payload(input) == Some(compressed);
    var jsonString := decompress(compressed);
    if jsonString.None? || jsonString.value == "" {
      return None;
    }
    var data := parse(jsonString.value);
    if data.None? {
      return None;
    }
    r := Some(WithDefaults(data.value));
  }

  /** An f-puzzles link without a `load` parameter decodes to `null`, whatever
      the decompressor and parser do. */
  lemma NoLoadIsNull(input: string, decompress: string -> Option<string>, parse: string -> Option<RawData>)
    requires Includes(Trim(input), "f-puzzles.com") && Match(Trim(input), LoadPattern).None?
    ensures Payload(input).None? && Decoded(input, decompress, parse).None?
  {
  }

  /** The characters of base-64 text: `A-Za-z0-9+/=`. */
  predicate IsBase64Char(c: char)
  {
    ('A' <= c <= 'Z') || ('a' <= c <= 'z') || ('0' <= c <= '9') || c == '+' || c == '/' || c == '='
  }

  predicate IsBase64(s: string)
  {
    forall m :: 0 <= m < |s| ==> IsBase64Char(s[m])
  }

  /** Base-64 text holds neither link marker: both have a `.` at index 9. */
  lemma Base64HasNoMarker(s: string)
    requires IsBase64(s)
    ensures !Includes(s, "f-puzzles.com") && !Includes(s, "sudokupad.app")
  {
    forall i
      ensures !OccursAt(s, "f-puzzles.com", i) && !OccursAt(s, "sudokupad.app", i)
    {
      if 0 <= i && i + 13 <= |s| {
        assert s[i..i + 13][9] == s[i + 9] && IsBase64Char(s[i + 9]);
      }
    }
    IncludesIff(s, "f-puzzles.com");
    IncludesIff(s, "sudokupad.app");
  }

  /** Base-64 text has no white space at its ends. */
  lemma Base64Trimmed(s: string)
    requires IsBase64(s)
    ensures Trim(s) == s
  {
    if s != [] {
      assert IsBase64Char(s[0]) && IsBase64Char(s[|s| - 1]);
    }
    TrimNoSpace(s);
  }

  /** Compressed data given as is goes to the decompressor unchanged. */
  lemma RawPayload(data: string)
    requires IsBase64(data)
    ensures Payload(data) == Some(data)
  {
    Base64Trimmed(data);
    Base64HasNoMarker(data);
  }

  /** An f-puzzles link whose `load` value holds no SudokuPad marker gives
      that value. */
  lemma PayloadOfLoad(t: string, v: string)
    requires Includes(t, "f-puzzles.com") && Match(t, LoadPattern) == Some(v)
    requires !Includes(v, "sudokupad.app")
    ensures PayloadOf(t) == Some(v)
  {
  }

  /** An f-puzzles link `https://f-puzzles.com/?load=<data>` gives `data`. */
  lemma FPuzzlesLinkPayload(data: string)
    requires data != [] && IsBase64(data)
    ensures Payload("https://f-puzzles.com/?load=" + data) == Some(data)
  {
    var s := "https://f-puzzles.com/?load=" + data;
    LinkTrimmed("https://f-puzzles.com/?load=", data);
    FPuzzlesLinkLoad(data);
    Base64HasNoMarker(data);
    PayloadOfLoad(s, data);
  }

  /** A link prefix (starting with `h`) followed by base-64 data is
      trimmed already. */
  lemma LinkTrimmed(pre: string, data: string)
    requires data != [] && IsBase64(data) && pre != [] && pre[0] == 'h'
    ensures Trim(pre + data) == pre + data
  {
    var s := pre + data;
    assert s[0] == 'h' && s[|s| - 1] == data[|data| - 1] && IsBase64Char(data[|data| - 1]);
    TrimNoSpace(s);
  }

  lemma FPuzzlesLinkLoad(data: string)
    requires data != [] && IsBase64(data)
    ensures var s := "https://f-puzzles.com/?load=" + data;
      Includes(s, "f-puzzles.com") && Match(s, LoadPattern) == Some(data)
  {
    var pre := "https://f-puzzles.com/";
    var s := "https://f-puzzles.com/?load=" + data;
    assert s == pre + ['?'] + LoadPattern.key + data;
    Base64Outside(data, '&');
    LeadMatchToEnd(pre, '?', LoadPattern, data);
    FPuzzlesMarkerInLink(data);
  }

  lemma FPuzzlesMarkerInLink(data: string)
    ensures Includes("https://f-puzzles.com/?load=" + data, "f-puzzles.com")
  {
    var s := "https://f-puzzles.com/?load=" + data;
    assert s[8..21] == "f-puzzles.com";
    IncludesAt(s, "f-puzzles.com", 8);
  }

  /** Base-64 text lacks the character `c` of a `[^c]` class. */
  lemma Base64Outside(data: string, c: char)
    requires IsBase64(data) && !IsBase64Char(c)
    ensures forall m :: 0 <= m < |data| ==> data[m] !in {c}
  {
  }

  /** A link without the f-puzzles marker whose SudokuPad capture is `v`
      gives `v`. */
  lemma PayloadOfSudokuPad(t: string, v: string)
    requires !Includes(t, "f-puzzles.com") && Includes(t, "sudokupad.app")
    requires Match(t, SudokuPadDataPattern) == Some(v)
    ensures PayloadOf(t) == Some(v)
  {
  }

  /** A SudokuPad link `https://sudokupad.app/<data>` gives `data`. */
  lemma SudokuPadLinkPayload(data: string)
    requires data != [] && IsBase64(data)
    ensures Payload("https://sudokupad.app/" + data) == Some(data)
  {
    var s := "https://sudokupad.app/" + data;
    LinkTrimmed("https://sudokupad.app/", data);
    NoFPuzzlesInSudokuPadLink(data);
    SudokuPadLinkData(data);
    PayloadOfSudokuPad(s, data);
  }

  lemma SudokuPadLinkData(data: string)
    requires data != [] && IsBase64(data)
    ensures var s := "https://sudokupad.app/" + data;
      Includes(s, "sudokupad.app") && Match(s, SudokuPadDataPattern) == Some(data)
  {
    var pre := "https://";
    var s := "https://sudokupad.app/" + data;
    assert s == pre + SudokuPadDataPattern.key + data;
    Base64Outside(data, '?');
    NoEarlySudokuPadKey(data);
    KeyMatchToEnd(pre, SudokuPadDataPattern, data);
    assert StartsWith(SudokuPadDataPattern.key, "sudokupad.app");
    MarkerInMatch(s, SudokuPadDataPattern, "sudokupad.app");
  }

  /** The only `s` of `https://` is not followed by `u`. */
  lemma NoEarlySudokuPadKey(data: string)
    ensures forall h :: 0 <= h < 8 ==> !OccursAt("https://sudokupad.app/" + data, SudokuPadDataPattern.key, h)
  {
    var s := "https://sudokupad.app/" + data;
    assert forall m :: 0 <= m < 8 && s[m] == 's' ==> m == 4;
    forall h | 0 <= h < 8
      ensures !OccursAt(s, SudokuPadDataPattern.key, h)
    {
      var w := s[h..h + 14];
      assert w[0] == s[h] && w[1] == s[h + 1];
    }
  }

  /** `f-puzzles.com` does not occur in such a link: its `.` would have to be
      the one of `sudokupad.app`, nine characters after an `s`. */
  lemma NoFPuzzlesInSudokuPadLink(data: string)
    requires IsBase64(data)
    ensures !Includes("https://sudokupad.app/" + data, "f-puzzles.com")
  {
    var s := "https://sudokupad.app/" + data;
    assert forall m :: 0 <= m < 22 && s[m] == '.' ==> m == 17;
    forall i
      ensures !OccursAt(s, "f-puzzles.com", i)
    {
      if 0 <= i && i + 13 <= |s| {
        var w := s[i..i + 13];
        assert w[0] == s[i] && w[9] == s[i + 9];
        if i + 9 >= 22 {
          assert s[i + 9] == data[i + 9 - 22] && IsBase64Char(data[i + 9 - 22]);
        }
      }
    }
    IncludesIff(s, "f-puzzles.com");
  }

  /** `v` is the text after `sudokupad.app/` (at `i`) in `t`, up to the
      first `?` or the end. */
  predicate DataAfterKey(t: string, v: string, i: nat)
  {
    v != [] && '?' !in v
    && OccursAt(t, "sudokupad.app/" + v, i) && (i + 14 + |v| == |t| || t[i + 14 + |v|] == '?')
  }

  /** A SudokuPad link (and no f-puzzles marker) gives the text after
      `sudokupad.app/` up to the first `?`. */
  lemma SudokuPadPayload(input: string) returns (i: nat)
    requires !Includes(Trim(input), "f-puzzles.com") && Match(Trim(input), SudokuPadDataPattern).Some?
    ensures Payload(input) == Match(Trim(input), SudokuPadDataPattern)
    ensures DataAfterKey(Trim(input), Match(Trim(input), SudokuPadDataPattern).value, i)
  {
    var t := Trim(input);
    i := SudokuPadData(t);
    assert StartsWith(SudokuPadDataPattern.key, "sudokupad.app");
    MarkerInMatch(t, SudokuPadDataPattern, "sudokupad.app");
    PayloadOfSudokuPad(t, Match(t, SudokuPadDataPattern).value);
  }

  lemma SudokuPadData(t: string) returns (i: nat)
    requires Match(t, SudokuPadDataPattern).Some?
    ensures DataAfterKey(t, Match(t, SudokuPadDataPattern).value, i)
  {
    var v := Match(t, SudokuPadDataPattern).value;
    var i0, j := MatchFacts(t, SudokuPadDataPattern);
    i := KeyBeforeCapture(t, SudokuPadDataPattern);
    assert i == i0;
    assert '?' !in v by {
      forall m | 0 <= m < |v|
        ensures v[m] != '?'
      {
        assert InClass(v[m], SudokuPadDataPattern.capture);
      }
    }
    if j + |v| < |t| {
      assert !InClass(t[j + |v|], SudokuPadDataPattern.capture);
    }
  }

  // ---------------------------------------------------------------------------
  // fpuzzlesToGrid

  /** `data.grid[row]?.[col]`: `None` for a missing row or cell. */
  function Lookup(grid: seq<Option<FRow>>, row: int, col: int): Option<FCell>
  {
    if 0 <= row < |grid| && grid[row].Some? && 0 <= col < |grid[row].value| then grid[row].value[col]
    else None
  }

  /** `{ value: cell.value || null, isGiven: cell.given || false }` for
      `cell = data.grid[row]?.[col] || {}`. */
  function CellAt(grid: seq<Option<FRow>>, row: int, col: int): (c: Cell)
    ensures Lookup(grid, row, col).None? ==> c == Cell(None, false)
    ensures c.value.Some? <==> Lookup(grid, row, col).Some? && Lookup(grid, row, col).value.value.Some?
                                && Lookup(grid, row, col).value.value.value != 0
    ensures c.value.Some? ==> c.value == Lookup(grid, row, col).value.value
    ensures c.isGiven <==> Lookup(grid, row, col).Some? && Lookup(grid, row, col).value.given == Some(true)
  {
    match Lookup(grid, row, col)
    case None => Cell(None, false)
    case Some(cell) =>
      Cell(if cell.value.Some? && cell.value.value != 0 then cell.value else None,
           cell.given == Some(true))
  }

  /** Row `row` of the output, columns `0 .. n-1`. */
  function RowCells(grid: seq<Option<FRow>>, row: int, n: nat): (r: seq<Cell>)
    ensures |r| == n
  {
    seq(n, col requires 0 <= col < n => CellAt(grid, row, col))
  }

  /** The first `k` rows of the output, one after the other. */
  function Rows(grid: seq<Option<FRow>>, k: nat, n: nat): (r: seq<Cell>)
    ensures |r| == k * n
  {
    if k == 0 then [] else Rows(grid, k - 1, n) + RowCells(grid, k - 1, n)
  }

  /** The output of `fpuzzlesToGrid`: `size` rows of `size` cells (none for
      a size below one). */
  function ToGrid(data: FData): GridData
  {
    var n := if data.size < 0 then 0 else data.size;
    GridData(data.size, Rows(data.grid, n, n))
  }

  /** Row-major order: cell (r, c) of the first `k` rows sits at `r * n + c`. */
  lemma {:induction false} RowsIndex(grid: seq<Option<FRow>>, k: nat, n: nat, r: nat, c: nat)
    requires r < k && c < n
    ensures r * n + c < k * n && Rows(grid, k, n)[r * n + c] == CellAt(grid, r, c)
  {
    assert (k - 1) * n == k * n - n;
    if r < k - 1 {
      RowsIndex(grid, k - 1, n, r, c);
      assert r * n + c < (k - 1) * n;
    } else {
      assert r * n == (k - 1) * n;
    }
  }

  /** `fpuzzlesToGrid` gives `size * size` cells, cell (r, c) at index
      `r * size + c`, and keeps the size. */
  lemma ToGridRowMajor(data: FData, r: nat, c: nat)
    requires r < data.size && c < data.size
    ensures var g := ToGrid(data);
      g.size == data.size && |g.cells| == data.size * data.size
      && g.cells[r * data.size + c] == CellAt(data.grid, r, c)
  {
    RowsIndex(data.grid, data.size, data.size, r, c);
  }

  /** `fpuzzlesToGrid(data)`: the two nested loops pushing one cell each. */
  method FPuzzlesToGrid(data: FData) returns (g: GridData)
    ensures g == ToGrid(data)
    ensures g.size == data.size
    ensures data.size >= 0 ==> |g.cells| == data.size * data.size
  {
    var n := if data.size < 0 then 0 else data.size;
    var cells: seq<Cell> := [];
    var row := 0;
    while row < data.size
      invariant 0 <= row <= n
      invariant cells == Rows(data.grid, row, n)
    {
      var col := 0;
      while col < data.size
        invariant 0 <= col <= n
        invariant cells == Rows(data.grid, row, n) + RowCells(data.grid, row, n)[..col]
      {
        var cell := Lookup(data.grid, row, col);
        var value := if cell.Some? && cell.value.value.Some? && cell.value.value.value != 0 then cell.value.value else None;
        var isGiven := cell.Some? && cell.value.given == Some(true);
        cells := cells + [Cell(value, isGiven)];
        assert RowCells(data.grid, row, n)[..col + 1] == RowCells(data.grid, row, n)[..col] + [CellAt(data.grid, row, col)];
        col := col + 1;
      }
      assert RowCells(data.grid, row, n)[..n] == RowCells(data.grid, row, n);
      row := row + 1;
    }
    g := GridData(data.size, cells);
  }
}
