/** The puzzle-id extraction of the SudokuPad embed component
    (src/components/sudoku/SudokuEmbed.tsx): SudokuPad links, f-puzzles
    links and Penpa links are reduced to the identifier SudokuPad loads, and
    anything else is taken as an identifier already. */
module SudokuEmbed {
  import opened Common
  import opened UrlPatterns

  /** `/sudokupad\.app\/(?:fpuzzles\/)?([^?&#]+)/` */
  const SudokuPadPattern := Pattern({}, "sudokupad.app/", "fpuzzles/", NoneOf({'?', '&', '#'}), None)

  /** `/[?#]m=([^&]+)/` */
  const PenpaPattern := Pattern({'?', '#'}, "m=", "", NoneOf({'&'}), None)

  const SudokuPadPrefix := "https://sudokupad.app/"

  /** `extractPuzzleId(input)`: the three URL forms are tried in order, each
      only when its marker occurs in the trimmed input; a marker whose
      pattern does not match falls through to the next form. */
  function ExtractPuzzleId(input: string): string
  {
    IdOfTrimmed(Trim(input))
  }

  function IdOfTrimmed(t: string): string
  {
    if Includes(t, "sudokupad.app") && Match(t, SudokuPadPattern).Some? then
      Match(t, SudokuPadPattern).value
    else if Includes(t, "f-puzzles.com") && Match(t, LoadPattern).Some? then
      "fpuzzles" + Match(t, LoadPattern).value
    else if Includes(t, "penpa") && Match(t, PenpaPattern).Some? then
      "penpa" + Match(t, PenpaPattern).value
    else t
  }

  /** The `src` of the embedded frame. */
  function EmbedUrl(puzzleId: string): (url: string)
    ensures StartsWith(url, SudokuPadPrefix) && url[|SudokuPadPrefix|..] == puzzleId
  {
    SudokuPadPrefix + puzzleId
  }

  /** The `sudokupad.app` marker test never rejects a string the pattern
      matches: the pattern itself contains the marker. */
  lemma SudokuPadMarkerImplied(t: string)
    requires Match(t, SudokuPadPattern).Some?
    ensures Includes(t, "sudokupad.app")
  {
    var i, j := MatchParts(t, SudokuPadPattern);
    assert t[i..i + 13] == t[i..i + 14][..13];
    IncludesAt(t, "sudokupad.app", i);
  }

  /** Where a SudokuPad identifier `id` sits in the link `t`: `sudokupad.app/`
      at `i`, then one optional `fpuzzles/`, then `id` from `j` on, running up
      to the end or to the first `?`, `&` or `#`. */
  predicate SudokuPadShape(t: string, id: string, i: nat, j: nat)
  {
    id != [] && (forall m :: 0 <= m < |id| ==> id[m] !in {'?', '&', '#'})
    && OccursAt(t, "sudokupad.app/", i) && (j == i + 14 || (j == i + 23 && OccursAt(t, "fpuzzles/", i + 14)))
    && OccursAt(t, id, j) && (j + |id| == |t| || t[j + |id|] in {'?', '&', '#'})
  }

  /** A SudokuPad link (after trimming) gives the identifier the SudokuPad
      pattern captures, of the shape above. */
  lemma ExtractFromSudokuPad(input: string) returns (i: nat, j: nat)
    requires Match(Trim(input), SudokuPadPattern).Some?
    ensures ExtractPuzzleId(input) == Match(Trim(input), SudokuPadPattern).value
    ensures SudokuPadShape(Trim(input), Match(Trim(input), SudokuPadPattern).value, i, j)
  {
    var t := Trim(input);
    SudokuPadFirst(t);
    i, j := SudokuPadCapture(t);
  }

  lemma SudokuPadCapture(t: string) returns (i: nat, j: nat)
    requires Match(t, SudokuPadPattern).Some?
    ensures SudokuPadShape(t, Match(t, SudokuPadPattern).value, i, j)
  {
    i, j := MatchFacts(t, SudokuPadPattern);
    var id := Match(t, SudokuPadPattern).value;
    forall m | 0 <= m < |id|
      ensures id[m] !in {'?', '&', '#'}
    {
      assert InClass(id[m], SudokuPadPattern.capture);
    }
    if j + |id| < |t| {
      assert !InClass(t[j + |id|], SudokuPadPattern.capture);
    }
  }

  /** An f-puzzles link (and no SudokuPad match) gives `fpuzzles` followed by
      the `load=` value up to the next `&`. */
  lemma ExtractFromFPuzzles(input: string)
    requires Match(Trim(input), SudokuPadPattern).None?
    requires Includes(Trim(input), "f-puzzles.com") && Match(Trim(input), LoadPattern).Some?
    ensures var t, v := Trim(input), Match(Trim(input), LoadPattern).value;
      ExtractPuzzleId(input) == "fpuzzles" + v && v != [] && '&' !in v
      && exists i :: 0 <= i < |t| && t[i] in {'?', '&'} && OccursAt(t, "load=" + v, i + 1)
  {
    ValueAfterKey(Trim(input), LoadPattern, "load=", {'?', '&'});
  }

  /** A Penpa link (and no earlier form matching) gives `penpa` followed by
      the `m=` value up to the next `&`. */
  lemma ExtractFromPenpa(input: string)
    requires Match(Trim(input), SudokuPadPattern).None?
    requires !Includes(Trim(input), "f-puzzles.com") || Match(Trim(input), LoadPattern).None?
    requires Includes(Trim(input), "penpa") && Match(Trim(input), PenpaPattern).Some?
    ensures var t, v := Trim(input), Match(Trim(input), PenpaPattern).value;
      ExtractPuzzleId(input) == "penpa" + v && v != [] && '&' !in v
      && exists i :: 0 <= i < |t| && t[i] in {'?', '#'} && OccursAt(t, "m=" + v, i + 1)
  {
    ValueAfterKey(Trim(input), PenpaPattern, "m=", {'?', '#'});
  }

  /** Anything that is no recognised link is kept, trimmed. */
  lemma ExtractOther(input: string)
    requires Match(Trim(input), SudokuPadPattern).None?
    requires !Includes(Trim(input), "f-puzzles.com") || Match(Trim(input), LoadPattern).None?
    requires !Includes(Trim(input), "penpa") || Match(Trim(input), PenpaPattern).None?
    ensures ExtractPuzzleId(input) == Trim(input)
  {
  }

  /** The shape of a `[..]key=([^&]+)` capture. */
  lemma ValueAfterKey(t: string, p: Pattern, key: string, lead: set<char>)
    requires p == Pattern(lead, key, "", NoneOf({'&'}), None) && lead != {}
    requires Match(t, p).Some?
    ensures var v := Match(t, p).value;
      v != [] && '&' !in v && exists i :: 0 <= i && i < |t| && t[i] in lead && OccursAt(t, key + v, i + 1)
  {
    var v := Match(t, p).value;
    var i, j := MatchParts(t, p);
    CaptureShape(t, j, p.capture, p.count);
    assert t[i + 1..i + 1 + |key|] == key;
    assert t[i + 1..i + 1 + |key| + |v|] == key + v;
    assert forall m :: 0 <= m < |v| ==> v[m] != '&';
  }

  /** Extracting from an embed URL gives back its identifier, for any
      identifier SudokuPad would read back whole: non-empty, free of `?`,
      `&` and `#`, not starting with `fpuzzles/`, and not ending in white
      space. */
  lemma EmbedUrlRoundTrip(id: string)
    requires id != [] && forall m :: 0 <= m < |id| ==> id[m] !in {'?', '&', '#'}
    requires !StartsWith(id, "fpuzzles/") && !IsSpace(id[|id| - 1])
    ensures ExtractPuzzleId(EmbedUrl(id)) == id
  {
    var s := EmbedUrl(id);
    EmbedUrlMatch(id);
    EmbedUrlTrimmed(id);
    SudokuPadFirst(s);
  }

  lemma EmbedUrlTrimmed(id: string)
    requires id != [] && !IsSpace(id[|id| - 1])
    ensures Trim(EmbedUrl(id)) == EmbedUrl(id)
  {
    var s := EmbedUrl(id);
    assert s[0] == 'h' && s[|s| - 1] == id[|id| - 1];
    TrimNoSpace(s);
  }

  /** A SudokuPad match decides the identifier. */
  lemma SudokuPadFirst(t: string)
    requires Match(t, SudokuPadPattern).Some?
    ensures IdOfTrimmed(t) == Match(t, SudokuPadPattern).value
  {
    SudokuPadMarkerImplied(t);
  }

  /** The SudokuPad pattern finds the identifier of an embed URL. */
  lemma EmbedUrlMatch(id: string)
    requires id != [] && forall m :: 0 <= m < |id| ==> id[m] !in {'?', '&', '#'}
    requires !StartsWith(id, "fpuzzles/")
    ensures Match(EmbedUrl(id), SudokuPadPattern) == Some(id)
  {
    var s := EmbedUrl(id);
    EmbedUrlNoEarlierHead(id);
    EmbedUrlMatchAt(id);
    MatchFirstAt(s, 0, 8, SudokuPadPattern);
  }

  lemma EmbedUrlNoEarlierHead(id: string)
    ensures forall j :: 0 <= j < 8 ==> MatchAt(EmbedUrl(id), j, SudokuPadPattern).None?
  {
    var s := EmbedUrl(id);
    forall j | 0 <= j < 8
      ensures !OccursAt(s, "sudokupad.app/", j)
    {
      var w := s[j..j + 14];
      assert w[0] == SudokuPadPrefix[j] && w[1] == SudokuPadPrefix[j + 1];
      assert w[0] != 's' || w[1] != 'u';
      assert w != "sudokupad.app/";
    }
  }

  lemma EmbedUrlMatchAt(id: string)
    requires id != [] && forall m :: 0 <= m < |id| ==> id[m] !in {'?', '&', '#'}
    requires !StartsWith(id, "fpuzzles/")
    ensures MatchAt(EmbedUrl(id), 8, SudokuPadPattern) == Some(id)
  {
    var s := EmbedUrl(id);
    assert s[8..22] == "sudokupad.app/";
    assert HeadAt(s, 8, SudokuPadPattern);
    RunToEnd(s, 22, {'?', '&', '#'});
    assert s[22..] == id;
    if 9 <= |id| {
      assert id[..9] == s[22..31];
    }
    assert !OccursAt(s, "fpuzzles/", 22);
  }
}
