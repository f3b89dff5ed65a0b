/** The handful of regular expressions the site uses to pick identifiers out
    of URLs, written as scanners. Every one of them has the same shape: a
    head (an optional one-character class, then literal text), an optional
    literal group, and one
    captured run of a character class, either `+` (greedy, at least one) or
    `{n}` (exactly n). `s.match(re)` without the `g` flag returns the first
    capture of the leftmost match, which is what `Match` computes. */
module UrlPatterns {
  import opened Common

  /** A bracket class: `[abc]`, `[^abc]`, or `[a-zA-Z0-9...]`. */
  datatype Class = OneOf(cs: set<char>) | NoneOf(cs: set<char>) | AlnumOr(extra: set<char>)

  predicate InClass(c: char, k: Class)
  {
    match k
    case OneOf(cs) => c in cs
    case NoneOf(cs) => c !in cs
    case AlnumOr(extra) => ('a' <= c <= 'z') || ('A' <= c <= 'Z') || ('0' <= c <= '9') || c in extra
  }

  /** `lead key optional? (capture+)` or `lead key optional? (capture{n})`,
      where `lead` is a one-character class (`[?&]`) or, when empty, absent. */
  datatype Pattern = Pattern(lead: set<char>, key: string, optional: string, capture: Class, count: Option<nat>)

  /** `/[?&]load=([^&]+)/`, the f-puzzles `load` parameter, written the same
      way by the SudokuPad embed and by the f-puzzles decoder. */
  const LoadPattern := Pattern({'?', '&'}, "load=", "", NoneOf({'&'}), None)

  /** The length of the part before the optional group. */
  function HeadLength(p: Pattern): nat
  {
    (if p.lead == {} then 0 else 1) + |p.key|
  }

  predicate HeadAt(s: string, i: int, p: Pattern)
  {
    if p.lead == {} then OccursAt(s, p.key, i)
    else 0 <= i < |s| && s[i] in p.lead && OccursAt(s, p.key, i + 1)
  }

  /** The longest run of characters of class `k` starting at `j`. */
  function Run(s: string, j: nat, k: Class): (r: string)
    requires j <= |s|
    decreases |s| - j
  {
    if j < |s| && InClass(s[j], k) then [s[j]] + Run(s, j + 1, k) else ""
  }

  /** The run is a piece of `s` at `j`, of class characters only, ending at
      the end of `s` or at the first character outside the class. */
  lemma {:induction false} RunSpec(s: string, j: nat, k: Class)
    requires j <= |s|
    ensures var r := Run(s, j, k);
      j + |r| <= |s| && r == s[j..j + |r|]
      && (forall m :: 0 <= m < |r| ==> InClass(r[m], k))
      && (j + |r| < |s| ==> !InClass(s[j + |r|], k))
    decreases |s| - j
  {
    if j < |s| && InClass(s[j], k) {
      RunSpec(s, j + 1, k);
    }
  }

  /** The capture at `j`, when the pattern's tail can match there. */
  function CaptureAt(s: string, j: nat, k: Class, count: Option<nat>): (r: Option<string>)
    requires j <= |s|
  {
    match count
    case None =>
      var run := Run(s, j, k);
      if run == "" then None else Some(run)
    case Some(n) =>
      if j + n <= |s| && forall m :: j <= m < j + n ==> InClass(s[m], k) then Some(s[j..j + n]) else None
  }

  /** What a capture is: a non-empty piece of `s` starting at `j`, made of
      class characters; with `{n}` it has length `n`, with `+` it runs up to
      the first character outside the class or to the end. */
  lemma CaptureShape(s: string, j: nat, k: Class, count: Option<nat>)
    requires j <= |s| && CaptureAt(s, j, k, count).Some?
    ensures var c := CaptureAt(s, j, k, count).value;
      (count.None? ==> c != []) && j + |c| <= |s| && c == s[j..j + |c|]
      && (forall m :: 0 <= m < |c| ==> InClass(c[m], k))
      && (count.Some? ==> |c| == count.value)
      && (count.None? ==> j + |c| == |s| || !InClass(s[j + |c|], k))
  {
    var c := CaptureAt(s, j, k, count).value;
    RunSpec(s, j, k);
    if count.Some? {
      assert forall m :: 0 <= m < |c| ==> c[m] == s[j + m];
    }
  }

  /** The match at position `i`: the head, then the optional group when the
      rest can still match after it (a greedy `?` tries it first), else the
      capture straight after the head. */
  function MatchAt(s: string, i: nat, p: Pattern): Option<string>
  {
    if !HeadAt(s, i, p) then None
    else
      var j := i + HeadLength(p);
      if OccursAt(s, p.optional, j) && CaptureAt(s, j + |p.optional|, p.capture, p.count).Some? then
        CaptureAt(s, j + |p.optional|, p.capture, p.count)
      else CaptureAt(s, j, p.capture, p.count)
  }

  /** The leftmost position at or after `from` where the pattern matches,
      or -1. */
  function MatchPos(s: string, from: nat, p: Pattern): (r: int)
    ensures r == -1 || (from <= r <= |s| && MatchAt(s, r, p).Some?)
    decreases |s| + 1 - from
  {
    if from > |s| then -1
    else if MatchAt(s, from, p).Some? then from
    else MatchPos(s, from + 1, p)
  }

  /** The position found is the leftmost one, and -1 means none at all. */
  lemma {:induction false} MatchPosLeftmost(s: string, from: nat, p: Pattern)
    ensures MatchPos(s, from, p) == -1 ==> forall i :: from <= i <= |s| ==> MatchAt(s, i, p).None?
    ensures forall i :: from <= i < MatchPos(s, from, p) ==> MatchAt(s, i, p).None?
    decreases |s| + 1 - from
  {
    if from <= |s| && MatchAt(s, from, p).None? {
      MatchPosLeftmost(s, from + 1, p);
    }
  }

  /** `s.match(re)?.[1]`: the capture of the leftmost match. */
  function Match(s: string, p: Pattern): Option<string>
  {
    var i := MatchPos(s, 0, p);
    if i < 0 then None else MatchAt(s, i, p)
  }

  /** When the match at `i` is the first one, it is the result. */
  lemma {:induction false} MatchFirstAt(s: string, from: nat, i: nat, p: Pattern)
    requires from <= i <= |s| && MatchAt(s, i, p).Some?
    requires forall j :: from <= j < i ==> MatchAt(s, j, p).None?
    ensures MatchPos(s, from, p) == i
    decreases i - from
  {
    if from < i {
      MatchFirstAt(s, from + 1, i, p);
    }
  }

  /** Where the leftmost match sits: its head at `i`, its capture at `j`,
      straight after the head or after the optional group. */
  lemma MatchParts(s: string, p: Pattern) returns (i: nat, j: nat)
    requires Match(s, p).Some?
    ensures i == MatchPos(s, 0, p) && HeadAt(s, i, p)
    ensures j == i + HeadLength(p) || (j == i + HeadLength(p) + |p.optional| && OccursAt(s, p.optional, i + HeadLength(p)))
    ensures j <= |s| && CaptureAt(s, j, p.capture, p.count) == Match(s, p)
  {
    i := MatchPos(s, 0, p);
    var m := MatchAt(s, i, p);
    assert Match(s, p) == m;
    assert HeadAt(s, i, p);
    var h := i + HeadLength(p);
    var full := OccursAt(s, p.optional, h) && CaptureAt(s, h + |p.optional|, p.capture, p.count).Some?;
    if full {
      j := h + |p.optional|;
      assert m == CaptureAt(s, j, p.capture, p.count);
    } else {
      j := h;
      assert m == CaptureAt(s, j, p.capture, p.count);
    }
  }

  /** The leftmost match in full: its head at `i`, and its capture at `j`,
      a piece of `s` of class characters (exactly `n` of them for `{n}`; for
      `+` at least one, running to the end or to a character outside the
      class). */
  lemma MatchFacts(s: string, p: Pattern) returns (i: nat, j: nat)
    requires Match(s, p).Some?
    ensures i == MatchPos(s, 0, p) && HeadAt(s, i, p)
    ensures j == i + HeadLength(p) || (j == i + HeadLength(p) + |p.optional| && OccursAt(s, p.optional, i + HeadLength(p)))
    ensures var c := Match(s, p).value;
      OccursAt(s, c, j)
      && (forall m :: 0 <= m < |c| ==> InClass(c[m], p.capture))
      && (p.count.Some? ==> |c| == p.count.value)
      && (p.count.None? ==> c != [] && (j + |c| == |s| || !InClass(s[j + |c|], p.capture)))
  {
    i, j := MatchParts(s, p);
    CaptureShape(s, j, p.capture, p.count);
  }

  /** For a pattern that is a bare key and a fixed-length capture: when the
      key occurs first at `i` and is followed by `n` class characters, those
      are the capture. */
  lemma MatchAfterKey(s: string, i: nat, p: Pattern, c: string)
    requires p.lead == {} && p.optional == "" && p.count == Some(|c|)
    requires OccursAt(s, p.key + c, i)
    requires forall m :: 0 <= m < |c| ==> InClass(c[m], p.capture)
    requires forall h :: 0 <= h < i ==> !OccursAt(s, p.key, h)
    ensures Match(s, p) == Some(c)
  {
    var j := i + |p.key|;
    assert s[i..j] == (p.key + c)[..|p.key|];
    assert s[j..j + |c|] == (p.key + c)[|p.key|..];
    assert forall m :: j <= m < j + |c| ==> s[m] == c[m - j];
    assert MatchAt(s, i, p) == Some(c);
    forall h | 0 <= h < i
      ensures MatchAt(s, h, p).None?
    {
      assert !HeadAt(s, h, p);
    }
    MatchFirstAt(s, 0, i, p);
  }

  /** The same, for the key right after a prefix that lacks the key's first
      character. */
  lemma MatchAfterPrefix(pre: string, p: Pattern, c: string, rest: string)
    requires p.lead == {} && p.optional == "" && p.count == Some(|c|) && p.key != []
    requires p.key[0] !in pre
    requires forall m :: 0 <= m < |c| ==> InClass(c[m], p.capture)
    ensures Match(pre + p.key + c + rest, p) == Some(c)
  {
    var s := pre + p.key + c + rest;
    forall h | 0 <= h < |pre|
      ensures !OccursAt(s, p.key, h)
    {
      assert s[h] == pre[h];
      if h + |p.key| <= |s| {
        assert s[h..h + |p.key|][0] == s[h];
      }
    }
    assert s[|pre|..|pre| + |p.key + c|] == p.key + c;
    MatchAfterKey(s, |pre|, p, c);
  }

  /** A `+` capture of a `[^...]` class that runs to the end of the string,
      after a key that occurs first right after `pre`. */
  lemma KeyMatchToEnd(pre: string, p: Pattern, c: string)
    requires p.lead == {} && p.optional == "" && p.count == None && p.capture.NoneOf?
    requires forall h :: 0 <= h < |pre| ==> !OccursAt(pre + p.key + c, p.key, h)
    requires c != [] && forall m :: 0 <= m < |c| ==> c[m] !in p.capture.cs
    ensures Match(pre + p.key + c, p) == Some(c)
  {
    var s := pre + p.key + c;
    var i, j := |pre|, |pre| + |p.key|;
    assert s[i..j] == p.key && s[j..] == c;
    RunToEnd(s, j, p.capture.cs);
    assert MatchAt(s, i, p) == Some(c);
    MatchFirstAt(s, 0, i, p);
  }

  /** The same after a one-character lead, when `pre` holds no lead
      character. */
  lemma LeadMatchToEnd(pre: string, l: char, p: Pattern, c: string)
    requires l in p.lead && p.optional == "" && p.count == None && p.capture.NoneOf?
    requires forall m :: 0 <= m < |pre| ==> pre[m] !in p.lead
    requires c != [] && forall m :: 0 <= m < |c| ==> c[m] !in p.capture.cs
    ensures Match(pre + [l] + p.key + c, p) == Some(c)
  {
    var s := pre + [l] + p.key + c;
    var i, j := |pre|, |pre| + 1 + |p.key|;
    forall h | 0 <= h < i
      ensures MatchAt(s, h, p).None?
    {
      assert s[h] == pre[h];
    }
    assert s[i] == l && s[i + 1..j] == p.key && s[j..] == c;
    RunToEnd(s, j, p.capture.cs);
    assert MatchAt(s, i, p) == Some(c);
    MatchFirstAt(s, 0, i, p);
  }

  /** For a pattern that is a bare key and a capture, the leftmost match has
      the key at `i`, straight before the capture. */
  lemma KeyBeforeCapture(s: string, p: Pattern) returns (i: nat)
    requires p.lead == {} && p.optional == "" && Match(s, p).Some?
    ensures i == MatchPos(s, 0, p) && OccursAt(s, p.key + Match(s, p).value, i)
  {
    var c := Match(s, p).value;
    var j;
    i, j := MatchFacts(s, p);
    assert j == i + |p.key| && s[i..j] == p.key && s[j..j + |c|] == c;
    assert s[i..j + |c|] == s[i..j] + s[j..j + |c|];
    assert |p.key + c| == j + |c| - i;
  }

  /** A pattern with no lead whose key starts with `marker` matches only
      where `marker` occurs. */
  lemma MarkerInMatch(t: string, p: Pattern, marker: string)
    requires p.lead == {} && Match(t, p).Some? && StartsWith(p.key, marker)
    ensures Includes(t, marker)
  {
    var i, j := MatchParts(t, p);
    assert t[i..i + |marker|] == t[i..i + |p.key|][..|marker|];
    IncludesAt(t, marker, i);
  }

  /** Text that occurs in a string also occurs in any string containing it. */
  lemma IncludesAt(s: string, t: string, i: int)
    requires OccursAt(s, t, i)
    ensures Includes(s, t)
  {
    IncludesIff(s, t);
  }

  /** A string with no character of `cs` is a single run of `NoneOf(cs)`. */
  lemma {:induction false} RunToEnd(s: string, j: nat, cs: set<char>)
    requires j <= |s| && forall m :: j <= m < |s| ==> s[m] !in cs
    ensures Run(s, j, NoneOf(cs)) == s[j..]
    decreases |s| - j
  {
    if j < |s| {
      RunToEnd(s, j + 1, cs);
    }
  }
}
