/** Shared vocabulary: an Option type, filtering, and the JavaScript string
    and array operations the site's code relies on (`trim`, `includes`,
    `endsWith`, `split`, `slice`, `padStart`, `repeat`, number formatting). */
module Common {

  datatype Option<T> = None | Some(value: T)

  lemma ConcatAssoc<T>(a: seq<T>, b: seq<T>, c: seq<T>)
    ensures (a + b) + c == a + (b + c)
  {
  }

  // ---------------------------------------------------------------------------
  // Array.prototype.filter

  /** `s.filter(p)`. */
  function Filter<T>(s: seq<T>, p: T -> bool): (r: seq<T>)
    ensures |r| <= |s|
    ensures forall i :: 0 <= i < |r| ==> r[i] in s && p(r[i])
    ensures forall i :: 0 <= i < |s| && p(s[i]) ==> s[i] in r
    ensures multiset(r) <= multiset(s)
  {
    if s == [] then []
    else
      assert s == [s[0]] + s[1..];
      (if p(s[0]) then [s[0]] else []) + Filter(s[1..], p)
  }

  /** Filtering distributes over concatenation, so the result keeps the
      relative order of the input. */
  lemma {:induction false} FilterConcat<T>(a: seq<T>, b: seq<T>, p: T -> bool)
    ensures Filter(a + b, p) == Filter(a, p) + Filter(b, p)
  {
    if a == [] {
      assert a + b == b;
    } else {
      assert (a + b)[0] == a[0];
      assert (a + b)[1..] == a[1..] + b;
      FilterConcat(a[1..], b, p);
    }
  }

  /** A filter keeps everything when every element passes. */
  lemma {:induction false} FilterAll<T>(s: seq<T>, p: T -> bool)
    requires forall i :: 0 <= i < |s| ==> p(s[i])
    ensures Filter(s, p) == s
  {
    if s != [] {
      FilterAll(s[1..], p);
    }
  }

  /** A filter keeps nothing when no element passes. */
  lemma {:induction false} FilterNone<T>(s: seq<T>, p: T -> bool)
    requires forall i :: 0 <= i < |s| ==> !p(s[i])
    ensures Filter(s, p) == []
  {
    if s != [] {
      FilterNone(s[1..], p);
    }
  }

  /** Two predicates that agree on every element filter alike. */
  lemma {:induction false} FilterSame<T>(s: seq<T>, p: T -> bool, q: T -> bool)
    requires forall i :: 0 <= i < |s| ==> p(s[i]) == q(s[i])
    ensures Filter(s, p) == Filter(s, q)
  {
    if s != [] {
      FilterSame(s[1..], p, q);
    }
  }

  /** Filtering twice with the same predicate changes nothing more. */
  lemma {:induction false} FilterIdempotent<T>(s: seq<T>, p: T -> bool)
    ensures Filter(Filter(s, p), p) == Filter(s, p)
  {
    FilterAll(Filter(s, p), p);
  }

  /** The elements that pass and the elements that fail add up to the whole. */
  lemma {:induction false} FilterComplement<T>(s: seq<T>, p: T -> bool)
    ensures |Filter(s, p)| + |Filter(s, x => !p(x))| == |s|
  {
    if s != [] {
      FilterComplement(s[1..], p);
    }
  }

  /** `s.filter(p).length`. */
  function Count<T>(s: seq<T>, p: T -> bool): nat
  {
    |Filter(s, p)|
  }

  /** The positions of `s` whose element satisfies `p`. */
  function Positions<T>(s: seq<T>, p: T -> bool): set<int>
  {
    set i: int | 0 <= i < |s| && p(s[i])
  }

  /** A filter keeps one element per satisfying position. */
  lemma {:induction false} FilterPositions<T>(s: seq<T>, p: T -> bool)
    ensures |Filter(s, p)| == |Positions(s, p)|
    decreases |s|
  {
    if s != [] {
      FilterPositions(s[..|s| - 1], p);
      FilterSnoc(s, p);
      PositionsSnoc(s, p);
    }
  }

  lemma FilterSnoc<T>(s: seq<T>, p: T -> bool)
    requires s != []
    ensures |Filter(s, p)| == |Filter(s[..|s| - 1], p)| + if p(s[|s| - 1]) then 1 else 0
  {
    var last := s[|s| - 1];
    assert s == s[..|s| - 1] + [last];
    FilterConcat(s[..|s| - 1], [last], p);
    assert [last][1..] == [];
  }

  lemma PositionsSnoc<T>(s: seq<T>, p: T -> bool)
    requires s != []
    ensures |Positions(s, p)| == |Positions(s[..|s| - 1], p)| + if p(s[|s| - 1]) then 1 else 0
  {
    var init := s[..|s| - 1];
    var tail := if p(s[|s| - 1]) then {|s| - 1} else {};
    assert Positions(s, p) == Positions(init, p) + tail by {
      forall i | 0 <= i < |s| - 1
        ensures s[i] == init[i]
      {
      }
    }
    assert |s| - 1 !in Positions(init, p);
  }

  /** No element occurs twice. */
  predicate Distinct<T(==)>(s: seq<T>)
  {
    forall i, j :: 0 <= i < j < |s| ==> s[i] != s[j]
  }

  function Elements<T>(s: seq<T>): set<T>
  {
    set x | x in s
  }

  /** A sequence without repetitions has as many elements as its set. */
  lemma {:induction false} DistinctElements<T>(s: seq<T>)
    requires Distinct(s)
    ensures |Elements(s)| == |s|
    decreases |s|
  {
    if s != [] {
      var init := s[..|s| - 1];
      var last := s[|s| - 1];
      assert s == init + [last];
      assert Distinct(init);
      DistinctElements(init);
      assert Elements(s) == Elements(init) + {last};
      assert last !in Elements(init);
    }
  }

  // ---------------------------------------------------------------------------
  // Array.prototype.slice: negative indices count from the end and every
  // index is clamped into [0, length].

  function RelativeIndex(i: int, len: nat): (r: nat)
    ensures r <= len
    ensures 0 <= i <= len ==> r == i
    ensures i < 0 ==> r == if len + i < 0 then 0 else len + i
    ensures i > len ==> r == len
  {
    if i < 0 then (if len + i < 0 then 0 else len + i)
    else if i > len then len
    else i
  }

  /** `s.slice(start, end)`. */
  function JsSlice<T>(s: seq<T>, start: int, end: int): seq<T>
  {
    var a := RelativeIndex(start, |s|);
    var b := RelativeIndex(end, |s|);
    if b <= a then [] else s[a..b]
  }

  /** Within bounds `slice` is the ordinary subsequence; in every case it
      takes elements of `s` and never more than `s` has. */
  lemma JsSliceBounds<T>(s: seq<T>, start: int, end: int)
    ensures 0 <= start <= end <= |s| ==> JsSlice(s, start, end) == s[start..end]
    ensures |JsSlice(s, start, end)| <= |s|
    ensures multiset(JsSlice(s, start, end)) <= multiset(s)
  {
    var a := RelativeIndex(start, |s|);
    var b := RelativeIndex(end, |s|);
    if a < b {
      assert s == s[..a] + s[a..b] + s[b..];
    }
  }

  /** `s.slice(0, k)` takes a prefix: `min(k, |s|)` elements for `k >= 0`, and
      all but the last `-k` elements for `k < 0`. */
  lemma JsSlicePrefix<T>(s: seq<T>, k: int)
    ensures k >= 0 ==> JsSlice(s, 0, k) == s[..if k <= |s| then k else |s|]
    ensures k < 0 ==> JsSlice(s, 0, k) == s[..if |s| + k < 0 then 0 else |s| + k]
  {
  }

  /** `s.slice(0, n)` for `n >= 0`: the first `n` elements, or all of them. */
  function Take<T>(s: seq<T>, n: nat): seq<T>
  {
    if n <= |s| then s[..n] else s
  }

  lemma TakeIsSlice<T>(s: seq<T>, n: nat)
    ensures Take(s, n) == JsSlice(s, 0, n)
    ensures |Take(s, n)| == if n <= |s| then n else |s|
    ensures multiset(Take(s, n)) <= multiset(s)
  {
    assert s == s[..if n <= |s| then n else |s|] + s[if n <= |s| then n else |s|..];
  }

  // ---------------------------------------------------------------------------
  // Strings

  /** The characters `String.prototype.trim` and the regular-expression class
      `\s` treat as white space (WhiteSpace and LineTerminator of ECMAScript). */
  predicate IsSpace(c: char)
  {
    c in {'\t', '\n', '\U{000B}', '\U{000C}', '\r', ' ', '\U{00A0}', '\U{1680}',
          '\U{2000}', '\U{2001}', '\U{2002}', '\U{2003}', '\U{2004}', '\U{2005}',
          '\U{2006}', '\U{2007}', '\U{2008}', '\U{2009}', '\U{200A}', '\U{2028}',
          '\U{2029}', '\U{202F}', '\U{205F}', '\U{3000}', '\U{FEFF}'}
  }

  /** `[0-9]`, the class `\d`. */
  predicate IsDigit(c: char)
  {
    '0' <= c <= '9'
  }

  /** `[A-Za-z0-9_]`, the class `\w`. */
  predicate IsWordChar(c: char)
  {
    ('a' <= c <= 'z') || ('A' <= c <= 'Z') || IsDigit(c) || c == '_'
  }

  /** The end of the run of white space starting at `i`. */
  function SpaceRunEnd(s: string, i: nat): (k: nat)
    requires i <= |s|
    ensures i <= k <= |s|
    ensures forall m :: i <= m < k ==> IsSpace(s[m])
    ensures k < |s| ==> !IsSpace(s[k])
    decreases |s| - i
  {
    if i < |s| && IsSpace(s[i]) then SpaceRunEnd(s, i + 1) else i
  }

  /** The start of the run of white space ending at `j`. */
  function SpaceRunStart(s: string, j: nat): (k: nat)
    requires j <= |s|
    ensures k <= j
    ensures forall m :: k <= m < j ==> IsSpace(s[m])
    ensures k > 0 ==> !IsSpace(s[k - 1])
  {
    if j > 0 && IsSpace(s[j - 1]) then SpaceRunStart(s, j - 1) else j
  }

  function TrimStart(s: string): (r: string)
    ensures |r| <= |s| && r == s[|s| - |r|..]
    ensures forall i :: 0 <= i < |s| - |r| ==> IsSpace(s[i])
    ensures r == [] || !IsSpace(r[0])
  {
    s[SpaceRunEnd(s, 0)..]
  }

  function TrimEnd(s: string): (r: string)
    ensures |r| <= |s| && r == s[..|r|]
    ensures forall i :: |r| <= i < |s| ==> IsSpace(s[i])
    ensures r == [] || !IsSpace(r[|r| - 1])
  {
    s[..SpaceRunStart(s, |s|)]
  }

  /** `s.trim()`: drops the white space at both ends, nothing else. */
  function Trim(s: string): (r: string)
    ensures r == [] || (!IsSpace(r[0]) && !IsSpace(r[|r| - 1]))
    ensures |r| <= |s|
  {
    TrimEnd(TrimStart(s))
  }

  /** Trimming a string with no white space at either end returns it as is. */
  lemma TrimNoSpace(s: string)
    requires s == [] || (!IsSpace(s[0]) && !IsSpace(s[|s| - 1]))
    ensures Trim(s) == s
  {
  }

  /** The trimmed string is the piece of `s` between its leading and its
      trailing white space. */
  lemma TrimSpec(s: string) returns (a: nat, b: nat)
    ensures a <= b <= |s| && Trim(s) == s[a..b]
    ensures forall m :: 0 <= m < a ==> IsSpace(s[m])
    ensures forall m :: b <= m < |s| ==> IsSpace(s[m])
  {
    a := SpaceRunEnd(s, 0);
    var t := s[a..];
    b := a + SpaceRunStart(t, |t|);
    assert Trim(s) == t[..b - a];
    forall m | b <= m < |s|
      ensures IsSpace(s[m])
    {
      assert s[m] == t[m - a];
    }
  }

  /** Trimming twice is trimming once. */
  lemma TrimIdempotent(s: string)
    ensures Trim(Trim(s)) == Trim(s)
  {
    TrimNoSpace(Trim(s));
  }

  predicate OccursAt(s: string, sub: string, i: int)
  {
    0 <= i && i + |sub| <= |s| && s[i..i + |sub|] == sub
  }

  /** `s.indexOf(sub, from)`: the first occurrence at or after `from`, or -1. */
  function IndexOf(s: string, sub: string, from: nat): (r: int)
    ensures r == -1 || (from <= r && OccursAt(s, sub, r))
    ensures r == -1 ==> forall i :: from <= i ==> !OccursAt(s, sub, i)
    ensures r != -1 ==> forall i :: from <= i < r ==> !OccursAt(s, sub, i)
    decreases |s| - from
  {
    if from + |sub| > |s| then -1
    else if s[from..from + |sub|] == sub then from
    else IndexOf(s, sub, from + 1)
  }

  /** `s.includes(sub)`. */
  predicate Includes(s: string, sub: string)
  {
    IndexOf(s, sub, 0) >= 0
  }

  lemma IncludesIff(s: string, sub: string)
    ensures Includes(s, sub) <==> exists i :: OccursAt(s, sub, i)
  {
    if !Includes(s, sub) {
      forall i ensures !OccursAt(s, sub, i) {
        if 0 <= i {
          assert !OccursAt(s, sub, i);
        }
      }
    }
  }

  /** `s.startsWith(p)`. */
  predicate StartsWith(s: string, p: string)
  {
    |p| <= |s| && s[..|p|] == p
  }

  /** `s.endsWith(suffix)`. */
  predicate EndsWith(s: string, suffix: string)
  {
    |suffix| <= |s| && s[|s| - |suffix|..] == suffix
  }

  /** `s.replace(pat, rep)` with a string pattern: only the first occurrence. */
  function ReplaceFirst(s: string, pat: string, rep: string): (r: string)
    ensures IndexOf(s, pat, 0) == -1 ==> r == s
    ensures IndexOf(s, pat, 0) >= 0 ==>
              r == s[..IndexOf(s, pat, 0)] + rep + s[IndexOf(s, pat, 0) + |pat|..]
  {
    var i := IndexOf(s, pat, 0);
    if i < 0 then s else s[..i] + rep + s[i + |pat|..]
  }

  /** The index of the first `c` in `s`. */
  function FirstIndexOf(s: string, c: char): (r: nat)
    requires c in s
    ensures r < |s| && s[r] == c && c !in s[..r]
  {
    if s[0] == c then 0 else 1 + FirstIndexOf(s[1..], c)
  }

  /** `s.split(sep)` for a one-character separator. */
  function Split(s: string, sep: char): (parts: seq<string>)
    ensures |parts| >= 1
    ensures forall i :: 0 <= i < |parts| ==> sep !in parts[i]
    decreases |s|
  {
    if sep !in s then [s]
    else
      var i := FirstIndexOf(s, sep);
      [s[..i]] + Split(s[i + 1..], sep)
  }

  /** `parts.join(sep)`. */
  function Join(parts: seq<string>, sep: char): string
  {
    if parts == [] then ""
    else if |parts| == 1 then parts[0]
    else parts[0] + [sep] + Join(parts[1..], sep)
  }

  /** Splitting and joining again gives back the original string. */
  lemma {:induction false} SplitJoin(s: string, sep: char)
    ensures Join(Split(s, sep), sep) == s
    decreases |s|
  {
    if sep in s {
      var i := FirstIndexOf(s, sep);
      var rest := Split(s[i + 1..], sep);
      SplitJoin(s[i + 1..], sep);
      assert Split(s, sep) == [s[..i]] + rest;
      assert s == s[..i] + [sep] + s[i + 1..];
    }
  }

  /** The last part of a split does not depend on what comes before the
      first separator. */
  lemma SplitLastPart(s: string, sep: char)
    requires sep in s
    ensures var parts, rest := Split(s, sep), Split(s[FirstIndexOf(s, sep) + 1..], sep);
      parts[|parts| - 1] == rest[|rest| - 1]
  {
    var i := FirstIndexOf(s, sep);
    var rest := Split(s[i + 1..], sep);
    SplitFirstPart(s, sep);
    LastOfCons(s[..i], rest);
  }

  lemma LastOfCons<T>(x: T, rest: seq<T>)
    requires rest != []
    ensures ([x] + rest)[|rest|] == rest[|rest| - 1]
  {
  }

  lemma SplitFirstPart(s: string, sep: char)
    requires sep in s
    ensures Split(s, sep) == [s[..FirstIndexOf(s, sep)]] + Split(s[FirstIndexOf(s, sep) + 1..], sep)
  {
  }

  /** Joining pieces free of the separator and splitting again gives back the
      pieces. */
  lemma {:induction false} JoinSplit(parts: seq<string>, sep: char)
    requires |parts| >= 1
    requires forall i :: 0 <= i < |parts| ==> sep !in parts[i]
    ensures Split(Join(parts, sep), sep) == parts
    decreases |parts|
  {
    if |parts| > 1 {
      var tail := Join(parts[1..], sep);
      var s := parts[0] + [sep] + tail;
      assert sep in s by { assert s[|parts[0]|] == sep; }
      var i := FirstIndexOf(s, sep);
      FirstIndexAfter(parts[0], sep, tail);
      assert s[..i] == parts[0];
      assert s[i + 1..] == tail;
      JoinSplit(parts[1..], sep);
    }
  }

  /** `s.padStart(len, c)` for a one-character pad. */
  function PadStart(s: string, len: nat, c: char): (r: string)
    ensures |r| == if |s| >= len then |s| else len
    ensures r[|r| - |s|..] == s
    ensures forall i :: 0 <= i < |r| - |s| ==> r[i] == c
    decreases len - |s|
  {
    if |s| >= len then s else PadStart([c] + s, len, c)
  }

  /** `s.repeat(k)` for `k >= 0`. */
  function Repeat(s: string, k: nat): (r: string)
    ensures |r| == |s| * k
    ensures forall i :: 0 <= i < |r| && |s| == 1 ==> r[i] == s[0]
  {
    if k == 0 then "" else s + Repeat(s, k - 1)
  }

  /** ASCII part of `toLowerCase`. */
  function LowerChar(c: char): (r: char)
    ensures 'A' <= c <= 'Z' ==> 'a' <= r <= 'z'
    ensures !('A' <= c <= 'Z') ==> r == c
  {
    if 'A' <= c <= 'Z' then (c as int + 32) as char else c
  }

  function ToLower(s: string): (r: string)
    ensures |r| == |s|
    ensures forall i :: 0 <= i < |s| ==> r[i] == LowerChar(s[i])
  {
    if s == [] then "" else [LowerChar(s[0])] + ToLower(s[1..])
  }

  /** `a.toLowerCase().includes(b.toLowerCase())`. */
  predicate IncludesIgnoringCase(a: string, b: string)
  {
    Includes(ToLower(a), ToLower(b))
  }

  // ---------------------------------------------------------------------------
  // Numbers as text

  function DigitChar(d: nat): (c: char)
    requires d < 10
    ensures IsDigit(c) && (c as int) - ('0' as int) == d
  {
    ('0' as int + d) as char
  }

  function DigitValue(c: char): nat
    requires IsDigit(c)
  {
    (c as int) - ('0' as int)
  }

  /** Decimal notation of a natural number, without leading zeros. */
  function NatToString(n: nat): (s: string)
    ensures |s| >= 1
    ensures forall i :: 0 <= i < |s| ==> IsDigit(s[i])
    ensures n > 0 ==> s[0] != '0'
    decreases n
  {
    if n < 10 then [DigitChar(n)] else NatToString(n / 10) + [DigitChar(n % 10)]
  }

  /** The value of a string of decimal digits. */
  function DigitsValue(s: string): nat
    requires forall i :: 0 <= i < |s| ==> IsDigit(s[i])
  {
    if s == [] then 0 else 10 * DigitsValue(s[..|s| - 1]) + DigitValue(s[|s| - 1])
  }

  /** Reading back the decimal notation of `n` gives `n`. */
  lemma {:induction false} NatToStringRoundTrip(n: nat)
    ensures DigitsValue(NatToString(n)) == n
    decreases n
  {
    var s := NatToString(n);
    if n >= 10 {
      NatToStringRoundTrip(n / 10);
      assert s[..|s| - 1] == NatToString(n / 10);
    }
  }

  /** `String(n)` (template-literal formatting) for an integer. */
  function IntToString(n: int): (s: string)
    ensures |s| >= 1
    ensures n >= 0 ==> s == NatToString(n)
    ensures n < 0 ==> s == "-" + NatToString(-n)
  {
    if n < 0 then "-" + NatToString(-n) else NatToString(n)
  }

  /** Different integers are formatted differently. */
  lemma IntToStringInjective(a: int, b: int)
    requires IntToString(a) == IntToString(b)
    ensures a == b
  {
    var s := IntToString(a);
    assert (a >= 0) == IsDigit(s[0]);
    assert (b >= 0) == IsDigit(s[0]);
    if a >= 0 {
      NatToStringRoundTrip(a);
      NatToStringRoundTrip(b);
    } else {
      assert s[1..] == NatToString(-a) == NatToString(-b);
      NatToStringRoundTrip(-a);
      NatToStringRoundTrip(-b);
    }
  }

  // ---------------------------------------------------------------------------
  // parseInt(s, 10)

  /** The result of `parseInt(s, 10)`: a number, or NaN when no digits lead. */
  datatype ParsedInt = NaN | Int(value: int)

  function LeadingDigits(s: string): (r: string)
    ensures |r| <= |s| && r == s[..|r|]
    ensures forall i :: 0 <= i < |r| ==> IsDigit(s[i])
    ensures |r| < |s| ==> !IsDigit(s[|r|])
  {
    if s != [] && IsDigit(s[0]) then [s[0]] + LeadingDigits(s[1..]) else ""
  }

  /** `parseInt(s, 10)`: leading white space, an optional sign, then the
      longest run of decimal digits; NaN when that run is empty. */
  function ParseInt(s: string): (r: ParsedInt)
    ensures s == [] ==> r == NaN
  {
    var t := TrimStart(s);
    var neg := t != [] && t[0] == '-';
    var body := if t != [] && (t[0] == '-' || t[0] == '+') then t[1..] else t;
    var digits := LeadingDigits(body);
    if digits == [] then NaN
    else if neg then Int(0 - DigitsValue(digits) as int)
    else Int(DigitsValue(digits))
  }

  /** `parseInt` reads back the notation `String(n)` produces. */
  lemma ParseIntRoundTrip(n: int)
    ensures ParseInt(IntToString(n)) == Int(n)
  {
    if n < 0 {
      var s := IntToString(n);
      var d := NatToString(-n);
      assert s[1..] == d;
      NatToStringRoundTrip(-n);
      assert DigitsValue(s[1..]) == -n;
      ParseIntNegative(s);
    } else {
      ParseIntDigits(NatToString(n));
      NatToStringRoundTrip(n);
    }
  }

  /** A minus sign followed by digits parses to the negated number. */
  lemma ParseIntNegative(s: string)
    requires |s| >= 2 && s[0] == '-' && forall i :: 1 <= i < |s| ==> IsDigit(s[i])
    ensures ParseInt(s) == Int(0 - DigitsValue(s[1..]) as int)
  {
    TrimStartUnchanged(s);
    AllDigitsLead(s[1..]);
  }

  /** A text that does not start with white space is its own `trimStart`. */
  lemma TrimStartUnchanged(s: string)
    requires s != [] && !IsSpace(s[0])
    ensures TrimStart(s) == s
  {
    assert SpaceRunEnd(s, 0) == 0;
  }

  /** A string made of digits only parses to the number it spells. */
  lemma ParseIntDigits(s: string)
    requires s != [] && forall i :: 0 <= i < |s| ==> IsDigit(s[i])
    ensures ParseInt(s) == Int(DigitsValue(s))
  {
    AllDigitsLead(s);
    assert !IsSpace(s[0]);
    TrimStartUnchanged(s);
    assert s[0] != '-' && s[0] != '+';
  }

  lemma FirstIndexAfter(a: string, c: char, b: string)
    requires c !in a
    ensures c in a + [c] + b && FirstIndexOf(a + [c] + b, c) == |a|
  {
    var s := a + [c] + b;
    assert s[|a|] == c;
    assert forall k :: 0 <= k < |a| ==> s[k] == a[k];
  }

  lemma {:induction false} AllDigitsLead(s: string)
    requires forall i :: 0 <= i < |s| ==> IsDigit(s[i])
    ensures LeadingDigits(s) == s
  {
    if s != [] {
      AllDigitsLead(s[1..]);
    }
  }
}
