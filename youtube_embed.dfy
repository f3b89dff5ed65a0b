/** The YouTube embed of the blog (src/components/blog/YouTubeEmbed.tsx): a
    video is given as a bare identifier or as a link, the identifier is
    picked out, and the privacy-enhanced embed URL is built from it. */
module YouTubeEmbed {
  import opened Common
  import opened UrlPatterns

  /** `[a-zA-Z0-9_-]`, the characters of a video identifier. */
  const IdClass := AlnumOr({'_', '-'})

  /** `/youtube\.com\/watch\?v=([a-zA-Z0-9_-]{11})/` */
  const WatchPattern := Pattern({}, "youtube.com/watch?v=", "", IdClass, Some(11))

  /** `/youtube\.com\/embed\/([a-zA-Z0-9_-]{11})/` */
  const EmbedPattern := Pattern({}, "youtube.com/embed/", "", IdClass, Some(11))

  /** `/youtu\.be\/([a-zA-Z0-9_-]{11})/` */
  const ShortPattern := Pattern({}, "youtu.be/", "", IdClass, Some(11))

  /** The link forms, in the order they are tried. */
  const Patterns := [WatchPattern, EmbedPattern, ShortPattern]

  const EmbedPrefix := "https://www.youtube-nocookie.com/embed/"

  /** `/^[a-zA-Z0-9_-]{11}$/`: exactly eleven identifier characters. */
  predicate IsVideoId(t: string)
  {
    |t| == 11 && forall m :: 0 <= m < |t| ==> InClass(t[m], IdClass)
  }

  /** The capture of the first pattern in `ps` that matches `t`. */
  function FirstMatch(t: string, ps: seq<Pattern>): Option<string>
  {
    if ps == [] then None
    else match Match(t, ps[0])
      case Some(v) => Some(v)
      case None => FirstMatch(t, ps[1..])
  }

  /** `FirstMatch` finds the capture of pattern `k`, the first of `ps` that
      matches, and `None` when none of them does. */
  lemma {:induction false} FirstMatchSpec(t: string, ps: seq<Pattern>) returns (k: nat)
    ensures FirstMatch(t, ps).Some? ==> k < |ps| && FirstMatch(t, ps) == Match(t, ps[k])
    ensures forall k' :: 0 <= k' < k && k' < |ps| ==> Match(t, ps[k']).None?
    ensures FirstMatch(t, ps).None? ==> k == |ps|
  {
    if ps == [] {
      k := 0;
    } else if Match(t, ps[0]).Some? {
      k := 0;
    } else {
      var k1 := FirstMatchSpec(t, ps[1..]);
      k := k1 + 1;
      forall k' | 0 <= k' < k && k' < |ps|
        ensures Match(t, ps[k']).None?
      {
        if k' > 0 {
          assert ps[k'] == ps[1..][k' - 1];
        }
      }
    }
  }

  /** `extractVideoId(input)`. */
  function ExtractVideoId(input: string): string
  {
    var t := Trim(input);
    if IsVideoId(t) then t
    else match FirstMatch(t, Patterns)
      case Some(v) => v
      case None => t
  }

  /** The three outcomes of `extractVideoId`: an identifier already (kept),
      the capture of link form `k`, the first that matches (always an
      identifier), or, when no form matches (`k == 3`), the trimmed input. */
  lemma ExtractVideoIdCases(input: string) returns (k: nat)
    ensures var t, r := Trim(input), ExtractVideoId(input);
      && (IsVideoId(t) ==> r == t)
      && (!IsVideoId(t) ==> k <= 3 && forall k' :: 0 <= k' < k ==> Match(t, Patterns[k']).None?)
      && (!IsVideoId(t) && k < 3 ==> Match(t, Patterns[k]) == Some(r) && IsVideoId(r))
      && (!IsVideoId(t) && k == 3 ==> r == t)
  {
    var t := Trim(input);
    k := FirstMatchSpec(t, Patterns);
    if FirstMatch(t, Patterns).Some? {
      var c := Match(t, Patterns[k]).value;
      var i, j := MatchFacts(t, Patterns[k]);
      assert IsVideoId(c);
    }
  }

  /** Where a link form finds an identifier: the form's key at `i`, and the
      identifier straight after it. */
  lemma LinkPosition(t: string, k: nat) returns (i: nat)
    requires k < 3 && Match(t, Patterns[k]).Some?
    ensures OccursAt(t, Patterns[k].key + Match(t, Patterns[k]).value, i)
  {
    var p := Patterns[k];
    assert p.lead == {} && p.optional == "";
    i := KeyBeforeCapture(t, p);
  }

  /** Whatever the input, the result is an identifier or the trimmed input. */
  lemma ExtractShape(input: string)
    ensures ExtractVideoId(input) == Trim(input) || IsVideoId(ExtractVideoId(input))
  {
    var k := ExtractVideoIdCases(input);
  }

  /** Identifier characters are no white space, so an identifier is its own
      trimmed form. */
  lemma VideoIdTrimmed(t: string)
    requires IsVideoId(t)
    ensures Trim(t) == t
  {
    assert InClass(t[0], IdClass) && InClass(t[10], IdClass);
    TrimNoSpace(t);
  }

  /** Extracting from an extracted identifier changes nothing. */
  lemma ExtractIdempotent(input: string)
    ensures ExtractVideoId(ExtractVideoId(input)) == ExtractVideoId(input)
  {
    var r := ExtractVideoId(input);
    ExtractShape(input);
    if IsVideoId(r) {
      VideoIdTrimmed(r);
    } else {
      TrimIdempotent(input);
    }
  }

  /** A trimmed link gives the capture of the first form that matches it. */
  lemma ExtractLink(s: string)
    requires Trim(s) == s && |s| != 11
    ensures Match(s, WatchPattern).Some? ==> ExtractVideoId(s) == Match(s, WatchPattern).value
    ensures Match(s, WatchPattern).None? && Match(s, EmbedPattern).Some? ==>
              ExtractVideoId(s) == Match(s, EmbedPattern).value
    ensures Match(s, WatchPattern).None? && Match(s, EmbedPattern).None? && Match(s, ShortPattern).Some? ==>
              ExtractVideoId(s) == Match(s, ShortPattern).value
  {
    FirstOfThree(s, WatchPattern, EmbedPattern, ShortPattern);
  }

  lemma FirstOfThree(t: string, a: Pattern, b: Pattern, c: Pattern)
    ensures FirstMatch(t, [a, b, c])
         == if Match(t, a).Some? then Match(t, a) else if Match(t, b).Some? then Match(t, b) else Match(t, c)
  {
    assert [a, b, c][1..] == [b, c] && [b, c][1..] == [c] && [c][1..] == [];
    assert FirstMatch(t, [c]) == Match(t, c);
    assert FirstMatch(t, [b, c]) == if Match(t, b).Some? then Match(t, b) else Match(t, c);
  }

  /** A watch link gives its identifier, whatever scheme or host prefix
      (without a `y`) comes before it and whatever query follows it. */
  lemma WatchLinkId(pre: string, id: string, rest: string)
    requires IsVideoId(id) && 'y' !in pre
    requires pre == [] || !IsSpace(pre[0])
    requires rest == [] || !IsSpace(rest[|rest| - 1])
    ensures ExtractVideoId(pre + WatchPattern.key + id + rest) == id
  {
    var key := WatchPattern.key;
    var s := pre + key + id + rest;
    LinkTrimmed(pre, key, id, rest);
    MatchAfterPrefix(pre, WatchPattern, id, rest);
    ExtractLink(s);
  }

  /** A link made of a prefix, a key starting with `y`, an identifier and a
      query has no white space to trim when neither end is white space. */
  lemma LinkTrimmed(pre: string, key: string, id: string, rest: string)
    requires key != [] && key[0] == 'y' && IsVideoId(id)
    requires pre == [] || !IsSpace(pre[0])
    requires rest == [] || !IsSpace(rest[|rest| - 1])
    ensures Trim(pre + key + id + rest) == pre + key + id + rest
  {
    var s := pre + key + id + rest;
    assert s[0] == (if pre == [] then key[0] else pre[0]);
    if rest == [] {
      assert s[|s| - 1] == id[10] && InClass(id[10], IdClass);
    } else {
      assert s[|s| - 1] == rest[|rest| - 1];
    }
    TrimNoSpace(s);
  }

  /** An embed link gives its identifier, whatever prefix (without a `y`)
      comes before it and whatever query (without a `.`) follows it. */
  lemma EmbedLinkId(pre: string, id: string, rest: string)
    requires IsVideoId(id) && 'y' !in pre && '.' !in rest
    requires pre == [] || !IsSpace(pre[0])
    requires rest == [] || !IsSpace(rest[|rest| - 1])
    ensures ExtractVideoId(pre + EmbedPattern.key + id + rest) == id
  {
    var s := pre + EmbedPattern.key + id + rest;
    LinkTrimmed(pre, EmbedPattern.key, id, rest);
    NoWatchInEmbedLink(pre, id, rest);
    MatchAfterPrefix(pre, EmbedPattern, id, rest);
    ExtractLink(s);
  }

  /** The watch form cannot match such an embed link: the `.` of a
      `youtube.com` can only be the one of the embed key, which is followed
      by `com/embed/`. */
  lemma NoWatchInEmbedLink(pre: string, id: string, rest: string)
    requires IsVideoId(id) && 'y' !in pre && '.' !in rest
    ensures Match(pre + EmbedPattern.key + id + rest, WatchPattern).None?
  {
    var s := pre + EmbedPattern.key + id + rest;
    forall i
      ensures !OccursAt(s, WatchPattern.key, i)
    {
      NoWatchAt(pre, id, rest, i);
    }
    if Match(s, WatchPattern).Some? {
      var i, j := MatchParts(s, WatchPattern);
    }
  }

  lemma NoWatchAt(pre: string, id: string, rest: string, i: int)
    requires IsVideoId(id) && 'y' !in pre && '.' !in rest
    ensures !OccursAt(pre + EmbedPattern.key + id + rest, WatchPattern.key, i)
  {
    var s := pre + EmbedPattern.key + id + rest;
    var key := WatchPattern.key;
    var n := |pre|;
    if 0 <= i && i + 20 <= |s| {
      assert key[0] == 'y' && key[7] == '.' && key[12] == 'w';
      if i < n {
        assert s[i] == pre[i];
        Mismatch(s, key, i, 0);
      } else if i == n {
        assert s[i + 12] == EmbedPattern.key[12];
        Mismatch(s, key, i, 12);
      } else if i + 7 < n + 18 {
        assert s[i + 7] == EmbedPattern.key[i + 7 - n];
        Mismatch(s, key, i, 7);
      } else if i + 7 < n + 29 {
        assert s[i + 7] == id[i + 7 - n - 18] && InClass(id[i + 7 - n - 18], IdClass);
        Mismatch(s, key, i, 7);
      } else {
        assert s[i + 7] == rest[i + 7 - n - 29];
        Mismatch(s, key, i, 7);
      }
    }
  }

  /** One differing character rules an occurrence out. */
  lemma Mismatch(s: string, key: string, i: nat, m: nat)
    requires m < |key| && i + |key| <= |s| && s[i + m] != key[m]
    ensures !OccursAt(s, key, i)
  {
    assert s[i..i + |key|][m] == s[i + m];
  }

  /** A short link gives its identifier, whatever prefix without `y` or `.`
      comes before it. */
  lemma ShortLinkId(pre: string, id: string)
    requires IsVideoId(id) && 'y' !in pre && '.' !in pre
    requires pre == [] || !IsSpace(pre[0])
    ensures ExtractVideoId(pre + ShortPattern.key + id) == id
  {
    var key := ShortPattern.key;
    var s := pre + key + id;
    assert s + "" == s;
    LinkTrimmed(pre, key, id, "");
    NoYoutubeCom(pre, id);
    NoKeyNoMatch(s, WatchPattern);
    NoKeyNoMatch(s, EmbedPattern);
    MatchAfterPrefix(pre, ShortPattern, id, "");
    ExtractLink(s);
  }

  /** `youtube.com/` does not occur in such a short link: its only `.` is the
      one of `youtu.be`, and the character four places after it is the
      identifier's first, not `/`. */
  lemma NoYoutubeCom(pre: string, id: string)
    requires IsVideoId(id) && '.' !in pre
    ensures forall i :: !OccursAt(pre + ShortPattern.key + id, "youtube.com/", i)
  {
    var s := pre + ShortPattern.key + id;
    var n := |pre|;
    forall i
      ensures !OccursAt(s, "youtube.com/", i)
    {
      if 0 <= i && i + 12 <= |s| {
        var w := s[i..i + 12];
        assert w[7] == s[i + 7] && w[11] == s[i + 11];
        if i + 7 < n {
          assert s[i + 7] == pre[i + 7];
        } else if i + 7 < n + 9 {
          assert s[i + 7] == ShortPattern.key[i + 7 - n];
          if i + 7 == n + 5 {
            assert s[i + 11] == id[0] && InClass(id[0], IdClass);
          }
        } else {
          assert s[i + 7] == id[i + 7 - n - 9] && InClass(id[i + 7 - n - 9], IdClass);
        }
      }
    }
  }

  /** A pattern whose key starts with `youtube.com/` cannot match where that
      text does not occur. */
  lemma NoKeyNoMatch(s: string, p: Pattern)
    requires p.lead == {} && |p.key| >= 12 && p.key[..12] == "youtube.com/"
    requires forall i :: !OccursAt(s, "youtube.com/", i)
    ensures Match(s, p).None?
  {
    if Match(s, p).Some? {
      var i, j := MatchParts(s, p);
      assert s[i..i + 12] == s[i..i + |p.key|][..12];
      assert OccursAt(s, "youtube.com/", i);
    }
  }

  /** `start ? ... : ''`: the start time counts when given and non-zero. */
  predicate Truthy(start: Option<int>)
  {
    start.Some? && start.value != 0
  }

  /** The `?start=` suffix of the embed URL. */
  function StartQuery(start: Option<int>): string
  {
    if Truthy(start) then "?start=" + IntToString(start.value) else ""
  }

  /** The `src` of the embedded frame. */
  function EmbedUrl(videoId: string, start: Option<int>): (url: string)
    ensures StartsWith(url, EmbedPrefix + videoId)
  {
    var url := EmbedPrefix + videoId + StartQuery(start);
    assert url[..|EmbedPrefix + videoId|] == EmbedPrefix + videoId;
    url
  }

  /** Two identifiers with their start times give the same URL exactly
      when the identifiers and the truthy start times agree. */
  lemma EmbedUrlInjective(id1: string, start1: Option<int>, id2: string, start2: Option<int>)
    requires IsVideoId(id1) && IsVideoId(id2)
    ensures EmbedUrl(id1, start1) == EmbedUrl(id2, start2) <==>
      id1 == id2 && Truthy(start1) == Truthy(start2) && (Truthy(start1) ==> start1.value == start2.value)
  {
    var u1, u2 := EmbedUrl(id1, start1), EmbedUrl(id2, start2);
    var n := |EmbedPrefix|;
    if u1 == u2 {
      assert u1[n..n + 11] == id1 && u2[n..n + 11] == id2;
      var q1, q2 := StartQuery(start1), StartQuery(start2);
      assert u1[n + 11..] == q1 && u2[n + 11..] == q2;
      if Truthy(start1) && Truthy(start2) {
        assert q1[7..] == IntToString(start1.value) && q2[7..] == IntToString(start2.value);
        IntToStringInjective(start1.value, start2.value);
      }
    }
  }

  /** `aspect === '4:3' ? 'aspect-[4/3]' : 'aspect-video'`. */
  function AspectClass(aspect: string): (c: string)
    ensures c == "aspect-[4/3]" || c == "aspect-video"
    ensures c == "aspect-[4/3]" <==> aspect == "4:3"
  {
    if aspect == "4:3" then "aspect-[4/3]" else "aspect-video"
  }
}
