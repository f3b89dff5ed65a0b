/** The sudoku grid of the blog (src/components/sudoku/SudokuGrid.tsx): the
    puzzle text is read either through the f-puzzles decoder or as a plain
    string of digits, and every cell gets its place and its borders. */
module SudokuGrid {
  import opened Common
  import opened FPuzzles

  // ---------------------------------------------------------------------------
  // The plain format

  /** `[0-9.]` */
  predicate IsKept(c: char)
  {
    IsDigit(c) || c == '.'
  }

  /** `puzzle.replace(/[^0-9.]/g, '')`. */
  function Clean(puzzle: string): (r: string)
    ensures forall i :: 0 <= i < |r| ==> IsKept(r[i])
  {
    Filter(puzzle, IsKept)
  }

  /** The grid side for a cleaned length: 16, 36, 81 and 256 characters make
      grids of side 4, 6, 9 and 16; anything else is taken as 9. */
  function SizeForLength(len: nat): (size: nat)
    ensures size in {4, 6, 9, 16}
    ensures len in {16, 36, 81, 256} ==> size * size == len
  {
    if len == 16 then 4
    else if len == 36 then 6
    else if len == 81 then 9
    else if len == 256 then 16
    else 9
  }

  /** One character of the plain format: `0` and `.` are empty cells, any
      other digit is a given with that value. */
  function PlainCell(c: char): (cell: Cell)
    requires IsKept(c)
    ensures cell.isGiven <==> cell.value.Some?
    ensures cell.value.Some? ==> 1 <= cell.value.value <= 9 && DigitChar(cell.value.value) == c
    ensures cell.value.None? <==> c == '0' || c == '.'
  {
    if c == '0' || c == '.' then Cell(None, false) else Cell(Some(DigitValue(c)), true)
  }

  /** The plain format: one cell per kept character. */
  function PlainGrid(puzzle: string): (g: GridData)
    ensures var clean := Clean(puzzle);
      g.size == SizeForLength(|clean|) && |g.cells| == |clean|
      && forall i :: 0 <= i < |clean| ==> g.cells[i] == PlainCell(clean[i])
  {
    var clean := Clean(puzzle);
    GridData(SizeForLength(|clean|), seq(|clean|, i requires 0 <= i < |clean| => PlainCell(clean[i])))
  }

  /** The characters kept are exactly the digits and dots, in order. */
  lemma CleanKeepsExactly(puzzle: string)
    ensures Clean(puzzle) == Filter(puzzle, IsKept)
    ensures forall i :: 0 <= i < |puzzle| && IsKept(puzzle[i]) ==> puzzle[i] in Clean(puzzle)
    ensures forall i :: 0 <= i < |Clean(puzzle)| ==> Clean(puzzle)[i] in puzzle
    ensures Clean(Clean(puzzle)) == Clean(puzzle)
  {
    FilterIdempotent(puzzle, IsKept);
  }

  /** A cell the plain format can express: empty and not given, or a given
      digit from 1 to 9. */
  predicate IsPlain(cell: Cell)
  {
    (cell.value.None? && !cell.isGiven) || (cell.value.Some? && 1 <= cell.value.value <= 9 && cell.isGiven)
  }

  /** Writes cells in the plain format, `0` for an empty cell. */
  function Serialize(cells: seq<Cell>): (s: string)
    requires forall i :: 0 <= i < |cells| ==> IsPlain(cells[i])
    ensures |s| == |cells| && forall i :: 0 <= i < |s| ==> IsKept(s[i])
  {
    seq(|cells|, i requires 0 <= i < |cells| => PlainChar(cells[i]))
  }

  function PlainChar(cell: Cell): (c: char)
    requires IsPlain(cell)
    ensures IsKept(c)
  {
    if cell.value.None? then '0' else DigitChar(cell.value.value)
  }

  /** Reading back what `Serialize` writes gives the same cells, and the
      size of a standard grid. */
  lemma SerializeRoundTrip(cells: seq<Cell>)
    requires forall i :: 0 <= i < |cells| ==> IsPlain(cells[i])
    ensures var g := PlainGrid(Serialize(cells));
      g.cells == cells && (|cells| in {16, 36, 81, 256} ==> g.size * g.size == |cells|)
  {
    var s := Serialize(cells);
    FilterAll(s, IsKept);
    var g := PlainGrid(s);
    forall i | 0 <= i < |cells|
      ensures g.cells[i] == cells[i]
    {
      var c := cells[i];
      if c.value.Some? {
        assert s[i] == DigitChar(c.value.value);
        assert DigitValue(s[i]) == c.value.value;
      }
    }
  }

  // ---------------------------------------------------------------------------
  // Choosing the reader

  /** `puzzle.includes('f-puzzles.com') || puzzle.includes('sudokupad.app')
      || puzzle.length > 100`. */
  predicate TriesDecoder(puzzle: string)
  {
    Includes(puzzle, "f-puzzles.com") || Includes(puzzle, "sudokupad.app") || |puzzle| > 100
  }

  /** The memoised `gridData`: the decoder's grid when it is tried and
      succeeds, the plain format otherwise. */
  function GridFor(puzzle: string, decompress: string -> Option<string>, parse: string -> Option<RawData>): GridData
  {
    if TriesDecoder(puzzle) && Decoded(puzzle, decompress, parse).Some? then
      ToGrid(Decoded(puzzle, decompress, parse).value)
    else PlainGrid(puzzle)
  }

  /** A decoded puzzle is drawn with exactly side * side cells; everything
      else falls back to one cell per kept character. */
  lemma GridForShape(puzzle: string, decompress: string -> Option<string>, parse: string -> Option<RawData>)
    ensures var g := GridFor(puzzle, decompress, parse);
      if TriesDecoder(puzzle) && Decoded(puzzle, decompress, parse).Some? then
        var d := Decoded(puzzle, decompress, parse).value;
        g.size == d.size && (d.size >= 0 ==> |g.cells| == d.size * d.size)
      else g == PlainGrid(puzzle) && |g.cells| == |Clean(puzzle)|
  {
    if TriesDecoder(puzzle) && Decoded(puzzle, decompress, parse).Some? {
      var d := Decoded(puzzle, decompress, parse).value;
      var n := if d.size < 0 then 0 else d.size;
      assert |Rows(d.grid, n, n)| == n * n;
    }
  }

  /** A short plain string never goes to the decoder. */
  lemma ShortDigitsArePlain(puzzle: string, decompress: string -> Option<string>, parse: string -> Option<RawData>)
    requires |puzzle| <= 100 && forall i :: 0 <= i < |puzzle| ==> IsKept(puzzle[i])
    ensures GridFor(puzzle, decompress, parse) == PlainGrid(puzzle)
  {
    NoDotMarker(puzzle, "f-puzzles.com");
    NoDotMarker(puzzle, "sudokupad.app");
  }

  /** Digits and dots never spell a marker with a letter in it. */
  lemma NoDotMarker(s: string, marker: string)
    requires forall i :: 0 <= i < |s| ==> IsKept(s[i])
    requires |marker| > 0 && (marker[0] == 'f' || marker[0] == 's')
    ensures !Includes(s, marker)
  {
    forall i
      ensures !OccursAt(s, marker, i)
    {
      if 0 <= i && i + |marker| <= |s| {
        assert s[i..i + |marker|][0] == s[i];
      }
    }
    IncludesIff(s, marker);
  }

  // ---------------------------------------------------------------------------
  // Boxes and borders

  /** The integer square root. */
  function ISqrt(n: nat): (r: nat)
    ensures r * r <= n < (r + 1) * (r + 1)
  {
    if n == 0 then 0
    else
      var s := ISqrt(n - 1);
      if (s + 1) * (s + 1) <= n then s + 1 else s
  }

  /** `Math.sqrt(size)` as a box side: a whole number exactly for a perfect
      square. For any other size the floating-point root divides no column
      number, so such a grid gets no thick borders (`None`). */
  function Root(size: int): (r: Option<nat>)
    ensures r.Some? ==> r.value >= 1 && r.value * r.value == size
    ensures size >= 1 && r.None? ==> forall k: nat :: k * k != size
  {
    if size < 1 then None
    else
      var k := ISqrt(size);
      if k * k == size then Some(k)
      else
        assert forall j: nat :: j * j != size by {
          forall j: nat
            ensures j * j != size
          {
            if j <= k {
              assert j * j <= k * k by { MulMono(j, k); }
            } else {
              assert (k + 1) * (k + 1) <= j * j by { MulMono(k + 1, j); }
            }
          }
        }
        None
  }

  lemma MulMono(a: nat, b: nat)
    requires a <= b
    ensures a * a <= b * b
  {
    assert a * a <= a * b <= b * b;
  }

  /** `boxWidth`: 3 for a 6 grid, else the square root. */
  function BoxWidth(size: int): Option<nat>
  {
    if size == 6 then Some(3) else Root(size)
  }

  /** `boxHeight`: 2 for a 6 grid, else the square root. */
  function BoxHeight(size: int): Option<nat>
  {
    if size == 6 then Some(2) else Root(size)
  }

  /** The standard grids are tiled by their boxes: 2 by 2, 3 wide by 2 high,
      3 by 3 and 4 by 4. */
  lemma StandardBoxes(size: int)
    requires size in {4, 6, 9, 16}
    ensures BoxWidth(size).Some? && BoxHeight(size).Some?
    ensures BoxWidth(size).value * BoxHeight(size).value == size
    ensures size % BoxWidth(size).value == 0 && size % BoxHeight(size).value == 0
    ensures size == 6 <==> BoxWidth(size) != BoxHeight(size)
  {
    if size == 4 {
      RootOfSquare(2);
    } else if size == 9 {
      RootOfSquare(3);
    } else if size == 16 {
      RootOfSquare(4);
    }
  }

  lemma RootOfSquare(m: nat)
    requires m >= 1
    ensures Root(m * m) == Some(m)
  {
    var k := ISqrt(m * m);
    RootUnique(k, m, m * m);
  }

  lemma RootUnique(k: nat, m: nat, n: nat)
    requires k * k <= n < (k + 1) * (k + 1) && m * m == n
    ensures k == m
  {
    if k < m {
      MulMono(k + 1, m);
    } else if k > m {
      MulMono(m + 1, k);
    }
  }

  /** The border rule: width 2 after the last cell of a box, except at the
      edge of the grid. */
  function Border(index: int, size: int, side: Option<nat>): (w: int)
    ensures w == 1 || w == 2
  {
    if side.Some? && side.value != 0 && (index + 1) % side.value == 0 && index < size - 1 then 2 else 1
  }

  /** Where cell `idx` is drawn and its right and bottom border widths. */
  datatype Placement = Placement(row: int, col: int, borderRight: int, borderBottom: int)

  function Place(idx: nat, size: int): (p: Placement)
    requires size >= 1
    ensures 0 <= p.col < size && p.row * size + p.col == idx
  {
    var row, col := idx / size, idx % size;
    Placement(row, col, Border(col, size, BoxWidth(size)), Border(row, size, BoxHeight(size)))
  }

  /** Two neighbouring indexes lie in different boxes of side `w` exactly
      when the first is the last of its box. */
  lemma BoxBoundary(i: nat, w: nat)
    requires w >= 1
    ensures (i + 1) % w == 0 <==> i / w != (i + 1) / w
  {
    var q, r := i / w, i % w;
    assert i == q * w + r && 0 <= r < w;
    if r + 1 < w {
      assert i + 1 == q * w + (r + 1);
      DivModUnique(i + 1, w, q, r + 1);
    } else {
      assert i + 1 == (q + 1) * w + 0;
      DivModUnique(i + 1, w, q + 1, 0);
    }
  }

  lemma DivModUnique(n: nat, w: nat, q: nat, r: nat)
    requires w >= 1 && n == q * w + r && r < w
    ensures n / w == q && n % w == r
  {
    var q0, r0 := n / w, n % w;
    assert n == q0 * w + r0;
    assert q <= q0 by {
      if q0 < q { MulLe(q0 + 1, q, w); }
    }
    assert q0 <= q by {
      if q < q0 { MulLe(q + 1, q0, w); }
    }
  }

  lemma MulLe(a: nat, b: nat, w: nat)
    requires a <= b
    ensures a * w <= b * w
  {
  }

  /** On a standard grid, a cell has a thick right border exactly when the
      cell to its right is in another box, and a thick bottom border exactly
      when the cell below it is. */
  lemma ThickBordersSplitBoxes(idx: nat, size: int)
    requires size in {4, 6, 9, 16}
    ensures BoxWidth(size).Some? && BoxHeight(size).Some?
    ensures var p, w, h := Place(idx, size), BoxWidth(size).value, BoxHeight(size).value;
      (p.borderRight == 2 <==> p.col < size - 1 && p.col / w != (p.col + 1) / w)
      && (p.borderBottom == 2 <==> p.row < size - 1 && p.row / h != (p.row + 1) / h)
  {
    StandardBoxes(size);
    var p, w, h := Place(idx, size), BoxWidth(size).value, BoxHeight(size).value;
    assert w >= 1 && h >= 1;
    assert p.borderRight == Border(p.col, size, Some(w));
    BorderSplits(p.col, size, w);
    assert p.row >= 0 && p.borderBottom == Border(p.row, size, Some(h));
    BorderSplits(p.row, size, h);
  }

  /** A border is thick exactly where it separates two boxes of side `w`. */
  lemma BorderSplits(index: nat, size: int, w: nat)
    requires w >= 1
    ensures Border(index, size, Some(w)) == 2 <==> index < size - 1 && index / w != (index + 1) / w
  {
    BoxBoundary(index, w);
  }
}
