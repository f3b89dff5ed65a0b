/** The Connect Words puzzle format (src/data/connectwords/puzzles.ts): the
    record types, the bundled sample puzzles, `validatePuzzle` and
    `getShuffledWords`. */
module Puzzles {
  import opened Common
  import opened Random
  import opened FisherYates

  /** A colour string. Hex colours are kept as written; the HSL colours the
      code computes are kept as the integers they are computed from:
      `GroupHue(index, total)` is puzzleGenerator's `generateColor(index, total)`
      and `ClusterHue(index)` is ConnectWordsGame's `generateColor(index)`. */
  datatype Color = Css(text: string) | GroupHue(index: nat, total: nat) | ClusterHue(colorIndex: int)

  datatype PuzzleGroup = PuzzleGroup(name: string, words: seq<string>, color: Option<Color>, sourceId: Option<string>)

  datatype Puzzle = Puzzle(id: int, title: string, groups: seq<PuzzleGroup>, generated: Option<bool>, size: Option<nat>)

  /** One tile of the board: a word and the group it belongs to. */
  datatype ShuffledWord = ShuffledWord(word: string, groupIndex: nat, groupName: string, color: Option<Color>)

  datatype ValidationResult = ValidationResult(valid: bool, error: Option<string>)

  const MinGroups: nat := 5
  const MaxGroups: nat := 100

  /** What `validatePuzzle` accepts: between 5 and 100 groups, and as many
      words in every group as there are groups. */
  predicate WellFormed(p: Puzzle)
  {
    MinGroups <= |p.groups| <= MaxGroups
    && forall i :: 0 <= i < |p.groups| ==> |p.groups[i].words| == |p.groups|
  }

  function SizeError(): string
  {
    "Puzzle must have between 5 and 100 groups"
  }

  function GroupError(n: nat, g: PuzzleGroup): string
  {
    "Each group must have exactly " + NatToString(n) + " words (found "
      + NatToString(|g.words|) + " in \"" + g.name + "\")"
  }

  /** `validatePuzzle`: the size check first, then the groups in order; the
      first group of the wrong length is the one the error names. */
  method ValidatePuzzle(p: Puzzle) returns (r: ValidationResult)
    ensures r.valid <==> WellFormed(p)
    ensures r.valid ==> r.error == None
    ensures !(MinGroups <= |p.groups| <= MaxGroups) ==> r == ValidationResult(false, Some(SizeError()))
    ensures MinGroups <= |p.groups| <= MaxGroups && !r.valid ==>
      exists k :: 0 <= k < |p.groups| && |p.groups[k].words| != |p.groups|
        && (forall j :: 0 <= j < k ==> |p.groups[j].words| == |p.groups|)
        && r.error == Some(GroupError(|p.groups|, p.groups[k]))
  {
    if |p.groups| < MinGroups || |p.groups| > MaxGroups {
      return ValidationResult(false, Some(SizeError()));
    }
    var n := |p.groups|;
    var k := 0;
    while k < n
      invariant 0 <= k <= n
      invariant forall j :: 0 <= j < k ==> |p.groups[j].words| == n
    {
      var group := p.groups[k];
      if |group.words| != n {
        return ValidationResult(false, Some(GroupError(n, group)));
      }
      k := k + 1;
    }
    return ValidationResult(true, None);
  }

  // ---------------------------------------------------------------------------
  // getShuffledWords

  /** The tiles of one group, in the group's word order. */
  function GroupWords(g: PuzzleGroup, gi: nat): (r: seq<ShuffledWord>)
    ensures |r| == |g.words|
    ensures forall k :: 0 <= k < |r| ==> r[k] == ShuffledWord(g.words[k], gi, g.name, g.color)
  {
    seq(|g.words|, k requires 0 <= k < |g.words| => ShuffledWord(g.words[k], gi, g.name, g.color))
  }

  /** The `flatMap` of `getShuffledWords`: every group's tiles, group after
      group, each tagged with its group's index. */
  function AllWords(groups: seq<PuzzleGroup>): seq<ShuffledWord>
  {
    if groups == [] then []
    else AllWords(groups[..|groups| - 1]) + GroupWords(groups[|groups| - 1], |groups| - 1)
  }

  function TotalWords(groups: seq<PuzzleGroup>): nat
  {
    if groups == [] then 0 else TotalWords(groups[..|groups| - 1]) + |groups[|groups| - 1].words|
  }

  lemma {:induction false} AllWordsLength(groups: seq<PuzzleGroup>)
    ensures |AllWords(groups)| == TotalWords(groups)
  {
    if groups != [] {
      AllWordsLength(groups[..|groups| - 1]);
    }
  }

  /** A well-formed puzzle of n groups yields exactly n * n tiles. */
  lemma {:induction false} AllWordsSquare(groups: seq<PuzzleGroup>, n: nat)
    requires forall i :: 0 <= i < |groups| ==> |groups[i].words| == n
    ensures |AllWords(groups)| == |groups| * n
  {
    if groups != [] {
      var init := groups[..|groups| - 1];
      assert forall i :: 0 <= i < |init| ==> init[i] == groups[i];
      AllWordsSquare(init, n);
      assert |groups| * n == |init| * n + n;
    }
  }

  /** Every tile names a group of the puzzle, is one of that group's words
      and carries that group's name and colour. */
  lemma {:induction false} AllWordsSound(groups: seq<PuzzleGroup>, t: nat)
    requires t < |AllWords(groups)|
    ensures AllWords(groups)[t].groupIndex < |groups|
    ensures AllWords(groups)[t].word in groups[AllWords(groups)[t].groupIndex].words
    ensures AllWords(groups)[t].groupName == groups[AllWords(groups)[t].groupIndex].name
    ensures AllWords(groups)[t].color == groups[AllWords(groups)[t].groupIndex].color
  {
    var init := groups[..|groups| - 1];
    var last := GroupWords(groups[|groups| - 1], |groups| - 1);
    assert AllWords(groups) == AllWords(init) + last;
    if t < |AllWords(init)| {
      AllWordsSound(init, t);
      assert AllWords(groups)[t] == AllWords(init)[t];
      assert init[AllWords(init)[t].groupIndex] == groups[AllWords(init)[t].groupIndex];
    } else {
      assert AllWords(groups)[t] == last[t - |AllWords(init)|];
    }
  }

  /** Every word of every group appears as a tile. */
  lemma {:induction false} AllWordsComplete(groups: seq<PuzzleGroup>, gi: nat, k: nat)
    requires gi < |groups| && k < |groups[gi].words|
    ensures ShuffledWord(groups[gi].words[k], gi, groups[gi].name, groups[gi].color) in AllWords(groups)
    decreases |groups|
  {
    var init := groups[..|groups| - 1];
    var last := GroupWords(groups[|groups| - 1], |groups| - 1);
    assert AllWords(groups) == AllWords(init) + last;
    if gi < |groups| - 1 {
      assert init[gi] == groups[gi];
      AllWordsComplete(init, gi, k);
    } else {
      assert last[k] in AllWords(groups);
    }
  }

  function InGroup(gi: nat): ShuffledWord -> bool
  {
    (w: ShuffledWord) => w.groupIndex == gi
  }

  lemma GroupWordsCount(g: PuzzleGroup, k: nat, gi: nat)
    ensures |Filter(GroupWords(g, k), InGroup(gi))| == if k == gi then |g.words| else 0
  {
    if k == gi {
      FilterAll(GroupWords(g, k), InGroup(gi));
    } else {
      FilterNone(GroupWords(g, k), InGroup(gi));
    }
  }

  /** Group `gi` contributes exactly its own words to the tiles: this is the
      count the game compares a merged cluster against. */
  lemma {:induction false} AllWordsGroupCount(groups: seq<PuzzleGroup>, gi: nat)
    requires gi < |groups|
    ensures |Filter(AllWords(groups), InGroup(gi))| == |groups[gi].words|
    decreases |groups|
  {
    var init := groups[..|groups| - 1];
    var last := GroupWords(groups[|groups| - 1], |groups| - 1);
    assert AllWords(groups) == AllWords(init) + last;
    FilterConcat(AllWords(init), last, InGroup(gi));
    var before := |Filter(AllWords(init), InGroup(gi))|;
    var here := |Filter(last, InGroup(gi))|;
    assert |Filter(AllWords(groups), InGroup(gi))| == before + here;
    GroupWordsCount(groups[|groups| - 1], |groups| - 1, gi);
    if gi < |groups| - 1 {
      assert init[gi] == groups[gi];
      AllWordsGroupCount(init, gi);
      assert before == |groups[gi].words| && here == 0;
    } else {
      AllWordsIndexBelow(init, gi);
      assert before == 0 && here == |groups[gi].words|;
    }
  }

  /** No tile of the first groups names a later group. */
  lemma AllWordsIndexBelow(groups: seq<PuzzleGroup>, gi: nat)
    requires gi >= |groups|
    ensures Filter(AllWords(groups), InGroup(gi)) == []
  {
    var r := Filter(AllWords(groups), InGroup(gi));
    if |r| > 0 {
      var t :| 0 <= t < |AllWords(groups)| && AllWords(groups)[t] == r[0];
      AllWordsSound(groups, t);
      assert false;
    }
  }

  /** `getShuffledWords`: the tiles of all groups, shuffled in place by the
      Fisher–Yates loop. */
  method GetShuffledWords(p: Puzzle, rand: seq<nat>, pos: nat) returns (r: seq<ShuffledWord>, next: nat)
    ensures r == Shuffled(AllWords(p.groups), rand, pos)
    ensures |r| == |AllWords(p.groups)| && multiset(r) == multiset(AllWords(p.groups))
    ensures next == pos + DrawsUsed(|AllWords(p.groups)|)
  {
    var allWords := AllWords(p.groups);
    r, next := Shuffle(allWords, rand, pos);
  }

  /** For a well-formed puzzle of n groups the board has n * n tiles and each
      group has exactly n of them, whatever the draws. */
  lemma ShuffledWordsOfWellFormed(p: Puzzle, rand: seq<nat>, pos: nat, gi: nat)
    requires WellFormed(p) && gi < |p.groups|
    ensures |Shuffled(AllWords(p.groups), rand, pos)| == |p.groups| * |p.groups|
    ensures CountIn(Shuffled(AllWords(p.groups), rand, pos), gi) == |p.groups|
  {
    var all := AllWords(p.groups);
    AllWordsSquare(p.groups, |p.groups|);
    ShuffledIsPermutation(all, rand, pos);
    AllWordsGroupCount(p.groups, gi);
    FilterMultiset(all, Shuffled(all, rand, pos), gi);
  }

  /** The number of tiles of group `gi`. */
  function CountIn(s: seq<ShuffledWord>, gi: nat): nat
  {
    |Filter(s, InGroup(gi))|
  }

  /** Permuting the tiles does not change how many belong to a group. */
  lemma {:induction false} FilterMultiset(a: seq<ShuffledWord>, b: seq<ShuffledWord>, gi: nat)
    requires multiset(a) == multiset(b)
    ensures |Filter(a, InGroup(gi))| == |Filter(b, InGroup(gi))|
    decreases |a|
  {
    if a != [] {
      var x := a[0];
      assert x in multiset(b);
      var k :| 0 <= k < |b| && b[k] == x;
      var b' := b[..k] + b[k + 1..];
      assert b == b[..k] + [x] + b[k + 1..];
      assert a == [x] + a[1..];
      assert multiset(b) == multiset(b[..k]) + multiset{x} + multiset(b[k + 1..]);
      assert multiset(a) == multiset{x} + multiset(a[1..]);
      assert multiset(b') == multiset(b[..k]) + multiset(b[k + 1..]);
      assert multiset(a[1..]) == multiset(a) - multiset{x};
      assert multiset(b') == multiset(b) - multiset{x};
      FilterMultiset(a[1..], b', gi);
      FilterConcat(b[..k] + [x], b[k + 1..], InGroup(gi));
      FilterConcat(b[..k], [x], InGroup(gi));
      FilterConcat(b[..k], b[k + 1..], InGroup(gi));
      FilterConcat([x], a[1..], InGroup(gi));
    }
  }

  // ---------------------------------------------------------------------------
  // The bundled sample puzzles

  function Group(name: string, words: seq<string>, color: string): PuzzleGroup
  {
    PuzzleGroup(name, words, Some(Css(color)), None)
  }

  function Sample(id: int, title: string, groups: seq<PuzzleGroup>): Puzzle
  {
    Puzzle(id, title, groups, None, None)
  }

  const BasePuzzles: seq<Puzzle> := [
    Sample(1, "Sample Puzzle (5x5)", [
      Group("Programming Languages", ["Python", "Java", "Rust", "Swift", "Kotlin"], "#f9df6d"),
      Group("Planets", ["Mars", "Venus", "Saturn", "Jupiter", "Neptune"], "#a0c35a"),
      Group("Musical Instruments", ["Guitar", "Piano", "Drums", "Violin", "Flute"], "#b0c4ef"),
      Group("Colors", ["Red", "Blue", "Green", "Yellow", "Purple"], "#ba81c5"),
      Group("Fruits", ["Apple", "Banana", "Orange", "Mango", "Grape"], "#f5a589")
    ]),
    Sample(2, "Sample Puzzle (6x6)", [
      Group("Countries", ["France", "Japan", "Brazil", "Egypt", "Canada", "India"], "#f9df6d"),
      Group("Sports", ["Soccer", "Tennis", "Golf", "Hockey", "Rugby", "Cricket"], "#a0c35a"),
      Group("Animals", ["Lion", "Eagle", "Shark", "Wolf", "Bear", "Tiger"], "#b0c4ef"),
      Group("Elements", ["Gold", "Silver", "Iron", "Copper", "Zinc", "Nickel"], "#ba81c5"),
      Group("Trees", ["Oak", "Pine", "Maple", "Birch", "Cedar", "Willow"], "#f5a589"),
      Group("Gems", ["Ruby", "Diamond", "Emerald", "Sapphire", "Opal", "Topaz"], "#7dd3fc")
    ]),
    Sample(3, "Sample Puzzle (10x10)", [
      Group("Programming Languages", ["Python", "Java", "Rust", "Swift", "Kotlin", "Ruby", "Scala", "Perl", "Lua", "Haskell"], "#f9df6d"),
      Group("World Capitals", ["Paris", "Tokyo", "Berlin", "Cairo", "Lima", "Oslo", "Rome", "Seoul", "Dublin", "Vienna"], "#a0c35a"),
      Group("Ocean Animals", ["Whale", "Dolphin", "Octopus", "Jellyfish", "Seahorse", "Starfish", "Lobster", "Crab", "Squid", "Eel"], "#b0c4ef"),
      Group("Vegetables", ["Carrot", "Broccoli", "Spinach", "Tomato", "Onion", "Pepper", "Celery", "Lettuce", "Cabbage", "Garlic"], "#ba81c5"),
      Group("Car Brands", ["Toyota", "Honda", "Ford", "BMW", "Mercedes", "Audi", "Tesla", "Volvo", "Porsche", "Ferrari"], "#f5a589"),
      Group("Greek Letters", ["Alpha", "Beta", "Gamma", "Delta", "Epsilon", "Zeta", "Theta", "Lambda", "Sigma", "Omega"], "#7dd3fc"),
      Group("Board Games", ["Chess", "Monopoly", "Scrabble", "Risk", "Clue", "Battleship", "Checkers", "Backgammon", "Dominoes", "Yahtzee"], "#fca5a5"),
      Group("Composers", ["Mozart", "Beethoven", "Bach", "Chopin", "Vivaldi", "Handel", "Brahms", "Haydn", "Schubert", "Liszt"], "#86efac"),
      Group("Fabrics", ["Cotton", "Silk", "Wool", "Linen", "Denim", "Velvet", "Satin", "Leather", "Cashmere", "Polyester"], "#fcd34d"),
      Group("Spices", ["Cinnamon", "Paprika", "Turmeric", "Cumin", "Oregano", "Basil", "Thyme", "Nutmeg", "Saffron", "Ginger"], "#c4b5fd")
    ])
  ]

  /** Every bundled puzzle passes `validatePuzzle`, and their ids are
      1, 2 and 3. */
  lemma BasePuzzlesWellFormed()
    ensures |BasePuzzles| == 3
    ensures forall i :: 0 <= i < |BasePuzzles| ==> WellFormed(BasePuzzles[i]) && BasePuzzles[i].id == i + 1
  {
  }
}
