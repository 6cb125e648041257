/** The operations of Python's `str` that the scraper and the RDF transformer
    use, over Dafny strings (`seq<char>`, one element per code point). */
module Strings {

  /** The characters `str.isspace()` accepts, which `str.strip()` removes. */
  predicate IsSpace(c: char) {
    c == ' ' || ('\t' <= c <= '\r') || ('\U{1C}' <= c <= '\U{1F}') ||
    c == '\U{85}' || c == '\U{A0}' || c == '\U{1680}' ||
    ('\U{2000}' <= c <= '\U{200A}') || c == '\U{2028}' || c == '\U{2029}' ||
    c == '\U{202F}' || c == '\U{205F}' || c == '\U{3000}'
  }

  /** Non-empty, and neither end is whitespace: what `strip()` leaves of a
      string that is not all whitespace. */
  predicate Trimmed(s: string) {
    s != [] && !IsSpace(s[0]) && !IsSpace(s[|s| - 1])
  }

  /** Every element is trimmed. */
  predicate AllTrimmed(parts: seq<string>) {
    forall k :: 0 <= k < |parts| ==> Trimmed(parts[k])
  }

  lemma {:induction false} AllTrimmedConcat(a: seq<string>, b: seq<string>)
    requires AllTrimmed(a) && AllTrimmed(b)
    ensures AllTrimmed(a + b)
  {
  }

  lemma {:induction false} ConcatAssoc<T>(a: seq<T>, b: seq<T>, c: seq<T>)
    ensures (a + b) + c == a + (b + c)
  {
  }

  /** `s.lstrip()`: the suffix left after dropping leading whitespace. */
  function LStrip(s: string): (r: string)
    ensures |r| <= |s|
    ensures r != [] ==> !IsSpace(r[0])
    decreases |s|
  {
    if s != [] && IsSpace(s[0]) then LStrip(s[1..]) else s
  }

  /** `LStrip(s)` is a suffix of `s`. */
  lemma {:induction false} LStripSuffix(s: string)
    ensures LStrip(s) == s[|s| - |LStrip(s)|..]
    decreases |s|
  {
    if s != [] && IsSpace(s[0]) {
      LStripSuffix(s[1..]);
      DropDrop(s, 1, |s| - 1 - |LStrip(s)|);
    }
  }

  /** What `LStrip` drops is whitespace. */
  lemma {:induction false} LStripDropsSpaces(s: string)
    ensures forall k :: 0 <= k < |s| - |LStrip(s)| ==> IsSpace(s[k])
    decreases |s|
  {
    if s != [] && IsSpace(s[0]) {
      LStripDropsSpaces(s[1..]);
      assert forall k :: 1 <= k < |s| ==> s[k] == s[1..][k - 1];
    }
  }

  /** `s.rstrip()`: the prefix left after dropping trailing whitespace. */
  function RStrip(s: string): (r: string)
    ensures |r| <= |s|
    ensures r != [] ==> !IsSpace(r[|r| - 1])
    decreases |s|
  {
    if s != [] && IsSpace(s[|s| - 1]) then RStrip(s[..|s| - 1]) else s
  }

  /** `RStrip(s)` is a prefix of `s`. */
  lemma {:induction false} RStripPrefix(s: string)
    ensures RStrip(s) == s[..|RStrip(s)|]
    decreases |s|
  {
    if s != [] && IsSpace(s[|s| - 1]) {
      RStripPrefix(s[..|s| - 1]);
    }
  }

  /** What `RStrip` drops is whitespace. */
  lemma {:induction false} RStripDropsSpaces(s: string)
    ensures forall k :: |RStrip(s)| <= k < |s| ==> IsSpace(s[k])
    decreases |s|
  {
    if s != [] && IsSpace(s[|s| - 1]) {
      RStripDropsSpaces(s[..|s| - 1]);
    }
  }

  /** `s.strip()`. */
  function Strip(s: string): (r: string)
    ensures r == [] || Trimmed(r)
    ensures |r| <= |s|
  {
    var l := LStrip(s);
    var r := RStrip(l);
    assert r == [] ==> l == [] by {
      RStripDropsSpaces(l);
    }
    assert r != [] ==> !IsSpace(r[0]) by {
      if r != [] {
        RStripPrefix(l);
        assert r[0] == l[0];
      }
    }
    r
  }

  /** `strip()` leaves nothing exactly when the string is all whitespace. */
  lemma {:induction false} StripEmptyIff(s: string)
    ensures Strip(s) == [] <==> forall k :: 0 <= k < |s| ==> IsSpace(s[k])
  {
    var l := LStrip(s);
    LStripDropsSpaces(s);
    RStripDropsSpaces(l);
    if Strip(s) == [] {
      assert l == [];
    } else {
      assert !IsSpace(Strip(s)[0]);
      var a := StripInfix(s);
      assert s[a] == Strip(s)[0];
    }
  }

  /** Stripping a trimmed string (or the empty one) changes nothing. */
  lemma {:induction false} StripTrimmed(s: string)
    requires s == [] || Trimmed(s)
    ensures Strip(s) == s
  {
  }

  /** `Strip(s)` is a contiguous piece of `s`. */
  lemma {:induction false} StripInfix(s: string) returns (a: nat)
    ensures a + |Strip(s)| <= |s| && Strip(s) == s[a..a + |Strip(s)|]
  {
    var l := LStrip(s);
    a := |s| - |l|;
    LStripSuffix(s);
    RStripPrefix(l);
    assert Strip(s) == l[..|Strip(s)|];
    DropSlice(s, a, 0, |Strip(s)|);
  }

  /** Leading whitespace never survives `LStrip`. */
  lemma {:induction false} LStripSpacePrefix(w: string, x: string)
    requires forall k :: 0 <= k < |w| ==> IsSpace(w[k])
    ensures LStrip(w + x) == LStrip(x)
    decreases |w|
  {
    if w != [] {
      assert (w + x)[0] == w[0] && (w + x)[1..] == w[1..] + x;
      LStripSpacePrefix(w[1..], x);
    } else {
      assert w + x == x;
    }
  }

  /** Appending a trimmed tail shields everything before it from `RStrip`. */
  lemma {:induction false} RStripTrimmedTail(x: string, v: string)
    requires Trimmed(v)
    ensures RStrip(x + v) == x + v
  {
    assert (x + v)[|x + v| - 1] == v[|v| - 1];
  }

  /** Trailing whitespace never survives `RStrip`, and nothing before it
      is touched when it ends in a non-space character. */
  lemma {:induction false} RStripSpaceSuffix(t: string, w: string)
    requires forall k :: 0 <= k < |w| ==> IsSpace(w[k])
    requires t == [] || !IsSpace(t[|t| - 1])
    ensures RStrip(t + w) == t
    decreases |w|
  {
    if w != [] {
      assert (t + w)[|t + w| - 1] == w[|w| - 1];
      assert (t + w)[..|t + w| - 1] == t + w[..|w| - 1];
      RStripSpaceSuffix(t, w[..|w| - 1]);
    } else {
      assert t + w == t;
    }
  }

  /** `strip()` of a trimmed text padded with whitespace on both sides is
      the text. */
  lemma {:induction false} StripPadded(w1: string, t: string, w2: string)
    requires forall k :: 0 <= k < |w1| ==> IsSpace(w1[k])
    requires forall k :: 0 <= k < |w2| ==> IsSpace(w2[k])
    requires Trimmed(t)
    ensures Strip(w1 + t + w2) == t
  {
    assert w1 + t + w2 == w1 + (t + w2);
    LStripSpacePrefix(w1, t + w2);
    assert (t + w2)[0] == t[0];
    assert LStrip(t + w2) == t + w2;
    RStripSpaceSuffix(t, w2);
  }

  /** A string without `m` keeps none after stripping. */
  lemma {:induction false} StripKeepsOut(s: string, m: string)
    requires !Contains(s, m)
    ensures !Contains(Strip(s), m)
  {
    var a := StripInfix(s);
    NotContainsInfix(s, m, a, a + |Strip(s)|);
  }

  /** `s.lstrip(c)`: the suffix left after dropping every leading `c`. */
  function LStripChar(s: string, c: char): (r: string)
    ensures |r| <= |s|
    ensures r != [] ==> r[0] != c
    decreases |s|
  {
    if s != [] && s[0] == c then LStripChar(s[1..], c) else s
  }

  /** `LStripChar(s, c)` is a suffix of `s`. */
  lemma {:induction false} LStripCharSuffix(s: string, c: char)
    ensures LStripChar(s, c) == s[|s| - |LStripChar(s, c)|..]
    decreases |s|
  {
    if s != [] && s[0] == c {
      LStripCharSuffix(s[1..], c);
      DropDrop(s, 1, |s| - 1 - |LStripChar(s, c)|);
    }
  }

  /** What `LStripChar` drops is copies of `c`. */
  lemma {:induction false} LStripCharDrops(s: string, c: char)
    ensures forall k :: 0 <= k < |s| - |LStripChar(s, c)| ==> s[k] == c
    decreases |s|
  {
    if s != [] && s[0] == c {
      LStripCharDrops(s[1..], c);
      assert forall k :: 1 <= k < |s| ==> s[k] == s[1..][k - 1];
    }
  }

  /** A string without `m` keeps none after dropping leading `c`s. */
  lemma {:induction false} LStripCharKeepsOut(s: string, c: char, m: string)
    requires !Contains(s, m)
    ensures !Contains(LStripChar(s, c), m)
  {
    var r := LStripChar(s, c);
    LStripCharSuffix(s, c);
    NotContainsInfix(s, m, |s| - |r|, |s|);
    assert s[|s| - |r|..|s|] == r;
  }

  /** A run of `c` never survives `LStripChar`. */
  lemma {:induction false} LStripCharPrefix(w: string, c: char, x: string)
    requires forall k :: 0 <= k < |w| ==> w[k] == c
    ensures LStripChar(w + x, c) == LStripChar(x, c)
    decreases |w|
  {
    if w != [] {
      assert (w + x)[0] == w[0] && (w + x)[1..] == w[1..] + x;
      LStripCharPrefix(w[1..], c, x);
    } else {
      assert w + x == x;
    }
  }

  /** `s.startswith(m)`. */
  predicate StartsWith(s: string, m: string) {
    |m| <= |s| && s[..|m|] == m
  }

  /** Python's `m in s` for strings: `m` is a substring of `s`. */
  predicate Contains(s: string, m: string)
    decreases |s|
  {
    StartsWith(s, m) || (s != [] && Contains(s[1..], m))
  }

  /** `m` occurs in `s` starting at index `i`. */
  ghost predicate OccursAt(s: string, m: string, i: int) {
    0 <= i && i + |m| <= |s| && s[i..i + |m|] == m
  }

  /** A slice of a slice is a slice of the original. */
  lemma {:induction false} SliceOfSlice<T>(s: seq<T>, a: int, b: int, i: int, j: int)
    requires 0 <= a <= b <= |s| && 0 <= i <= j <= b - a
    ensures s[a..b][i..j] == s[a + i..a + j]
  {
    forall k | 0 <= k < j - i ensures s[a..b][i..j][k] == s[a + i..a + j][k] {
    }
  }

  /** A suffix of a suffix is a suffix of the original. */
  lemma {:induction false} DropDrop<T>(s: seq<T>, a: int, i: int)
    requires 0 <= a <= |s| && 0 <= i <= |s| - a
    ensures s[a..][i..] == s[a + i..]
  {
  }

  /** A slice inside the first part of a concatenation. */
  lemma {:induction false} PrefixSlice<T>(s: seq<T>, t: seq<T>, i: int, j: int)
    requires 0 <= i <= j <= |s|
    ensures (s + t)[i..j] == s[i..j]
  {
  }

  /** A slice of a suffix is a slice of the original. */
  lemma {:induction false} DropSlice<T>(s: seq<T>, a: int, i: int, j: int)
    requires 0 <= a <= |s| && 0 <= i <= j <= |s| - a
    ensures s[a..][i..j] == s[a + i..a + j]
  {
  }

  lemma {:induction false} OccursAtContains(s: string, m: string, i: int)
    requires OccursAt(s, m, i)
    ensures Contains(s, m)
    decreases i
  {
    if i == 0 {
      assert s[..|m|] == m;
    } else {
      assert s[1..][i - 1..i - 1 + |m|] == s[i..i + |m|];
      OccursAtContains(s[1..], m, i - 1);
    }
  }

  lemma {:induction false} ContainsOccurs(s: string, m: string) returns (i: nat)
    requires Contains(s, m)
    ensures OccursAt(s, m, i)
    decreases |s|
  {
    if StartsWith(s, m) {
      i := 0;
    } else {
      var j := ContainsOccurs(s[1..], m);
      assert s[1..][j..j + |m|] == s[j + 1..j + 1 + |m|];
      i := j + 1;
    }
  }

  /** A piece of a string without `m` does not contain `m` either. */
  lemma {:induction false} NotContainsInfix(s: string, m: string, a: int, b: int)
    requires !Contains(s, m) && 0 <= a <= b <= |s|
    ensures !Contains(s[a..b], m)
  {
    if Contains(s[a..b], m) {
      var i := ContainsOccurs(s[a..b], m);
      SliceOfSlice(s, a, b, i, i + |m|);
      OccursAtContains(s, m, a + i);
    }
  }

  /** `m` occurs somewhere in `a + m + b`. */
  lemma {:induction false} ContainsMiddle(a: string, m: string, b: string)
    ensures Contains(a + m + b, m)
  {
    assert (a + m + b)[|a|..|a| + |m|] == m;
    OccursAtContains(a + m + b, m, |a|);
  }

  /** A string shorter than `m` cannot contain it. */
  lemma {:induction false} ShortNotContains(s: string, m: string)
    requires |s| < |m|
    ensures !Contains(s, m)
    decreases |s|
  {
    if s != [] {
      ShortNotContains(s[1..], m);
    }
  }

  /** A string without the first character of `m` cannot contain it. */
  lemma {:induction false} MissingFirstNotContains(s: string, m: string)
    requires m != [] && m[0] !in s
    ensures !Contains(s, m)
    decreases |s|
  {
    if s != [] {
      assert s[0] in s;
      assert forall c :: c in s[1..] ==> c in s;
      MissingFirstNotContains(s[1..], m);
    }
  }

  /** `s.split(m)[-1]`: Python's `split` cuts at the leftmost occurrence of
      `m` and goes on after it, so the last piece is what follows the last
      occurrence found that way (all of `s` when `m` does not occur). */
  function SplitLast(s: string, m: string): (r: string)
    requires m != []
    ensures |r| <= |s|
    decreases |s|
  {
    if StartsWith(s, m) then SplitLast(s[|m|..], m)
    else if s != [] && Contains(s[1..], m) then SplitLast(s[1..], m)
    else s
  }

  /** `SplitLast(s, m)` is a suffix of `s`. */
  lemma {:induction false} SplitLastSuffix(s: string, m: string)
    requires m != []
    ensures SplitLast(s, m) == s[|s| - |SplitLast(s, m)|..]
    decreases |s|
  {
    if StartsWith(s, m) {
      SplitLastSuffix(s[|m|..], m);
      DropDrop(s, |m|, |s| - |m| - |SplitLast(s, m)|);
    } else if s != [] && Contains(s[1..], m) {
      SplitLastSuffix(s[1..], m);
      DropDrop(s, 1, |s| - 1 - |SplitLast(s, m)|);
    }
  }

  /** What `SplitLast` keeps: the text after an occurrence of `m`, holding
      no `m` itself, and all of `s` when `m` does not occur. */
  lemma {:induction false} SplitLastSpec(s: string, m: string)
    requires m != []
    ensures !Contains(SplitLast(s, m), m)
    ensures !Contains(s, m) ==> SplitLast(s, m) == s
    ensures Contains(s, m) ==> SplitLastCut(s, m)
    decreases |s|
  {
    if StartsWith(s, m) {
      SplitLastSpec(s[|m|..], m);
      SplitLastStepPrefix(s, m);
    } else if s != [] && Contains(s[1..], m) {
      SplitLastSpec(s[1..], m);
      SplitLastStepSkip(s, m);
    } else {
      assert !Contains(s, m);
    }
  }

  /** `SplitLast(s, m)` is directly preceded by `m` in `s`. */
  ghost predicate SplitLastCut(s: string, m: string)
    requires m != []
  {
    var r := SplitLast(s, m);
    |r| + |m| <= |s| && s[|s| - |r| - |m|..|s| - |r|] == m
  }

  lemma {:induction false} SplitLastStepPrefix(s: string, m: string)
    requires m != [] && StartsWith(s, m)
    requires Contains(s[|m|..], m) ==> SplitLastCut(s[|m|..], m)
    requires !Contains(s[|m|..], m) ==> SplitLast(s[|m|..], m) == s[|m|..]
    ensures SplitLastCut(s, m)
  {
    var t := s[|m|..];
    var r := SplitLast(s, m);
    assert r == SplitLast(t, m);
    if Contains(t, m) {
      DropSlice(s, |m|, |t| - |r| - |m|, |t| - |r|);
    } else {
      assert |s| - |r| - |m| == 0;
      assert s[0..|m|] == s[..|m|];
    }
  }

  lemma {:induction false} SplitLastStepSkip(s: string, m: string)
    requires m != [] && !StartsWith(s, m) && s != [] && Contains(s[1..], m)
    requires SplitLastCut(s[1..], m)
    ensures SplitLastCut(s, m)
  {
    var t := s[1..];
    var r := SplitLast(s, m);
    assert r == SplitLast(t, m);
    DropSlice(s, 1, |t| - |r| - |m|, |t| - |r|);
  }

  /** No proper suffix of `m` is also a prefix of it: two occurrences of
      `m` can never overlap. */
  ghost predicate SelfOverlapFree(m: string) {
    forall d :: 0 < d < |m| ==> m[d..] != m[..|m| - d]
  }

  /** A string whose first character does not recur is overlap-free. */
  lemma {:induction false} FirstCharUnique(m: string)
    requires forall j :: 0 < j < |m| ==> m[j] != m[0]
    ensures SelfOverlapFree(m)
  {
    forall d | 0 < d < |m| ensures m[d..] != m[..|m| - d] {
      assert m[d..][0] == m[d] && m[..|m| - d][0] == m[0];
    }
  }

  /** Two overlapping occurrences of `m` show a border of `m`. */
  lemma {:induction false} OverlapBorder(s: string, m: string, p: int, q: int)
    requires OccursAt(s, m, p) && OccursAt(s, m, q) && p < q < p + |m|
    ensures m[q - p..] == m[..|m| - (q - p)]
  {
    SliceOfSlice(s, p, p + |m|, q - p, |m|);
    SliceOfSlice(s, q, q + |m|, 0, |m| - (q - p));
  }

  /** Two occurrences of an overlap-free `m` are at least `|m|` apart. */
  lemma {:induction false} OccurrencesApart(s: string, m: string, p: int, q: int)
    requires SelfOverlapFree(m) && OccursAt(s, m, p) && OccursAt(s, m, q) && p < q
    ensures p + |m| <= q
  {
    if q < p + |m| {
      OverlapBorder(s, m, p, q);
      assert false;
    }
  }

  /** For an overlap-free `m`, the occurrence `SplitLast` cuts at is the
      last occurrence of `m` in `s`. */
  lemma {:induction false} SplitLastIsLast(s: string, m: string, k: int)
    requires m != [] && SelfOverlapFree(m) && OccursAt(s, m, k)
    ensures Contains(s, m)
    ensures k <= |s| - |SplitLast(s, m)| - |m|
  {
    OccursAtContains(s, m, k);
    SplitLastSpec(s, m);
    var r := SplitLast(s, m);
    var p := |s| - |r| - |m|;
    if k > p {
      SplitLastSuffix(s, m);
      OccurrencesApart(s, m, p, k);
      SliceOfSlice(s, |s| - |r|, |s|, k - (|s| - |r|), k - (|s| - |r|) + |m|);
      OccursAtContains(r, m, k - (|s| - |r|));
    }
  }

  /** For an overlap-free `m`, nothing after a final `m` that holds no `m`
      is cut away. */
  lemma {:induction false} SplitLastKeepsTail(a: string, m: string, b: string)
    requires m != [] && SelfOverlapFree(m) && !Contains(b, m)
    ensures |b| <= |SplitLast(a + m + b, m)|
  {
    var s := a + m + b;
    assert s[|a|..|a| + |m|] == m;
    SplitLastSpec(s, m);
    var r := SplitLast(s, m);
    if |r| < |b| {
      var q := |s| - |r| - |m|;
      assert OccursAt(s, m, q);
      OccurrencesApart(s, m, |a|, q);
      OccursInTail(a, m, b, q);
      OccursAtContains(b, m, q - |a| - |m|);
    }
  }

  /** An occurrence of `m` past the middle `m` of `a + m + b` lies in `b`. */
  lemma {:induction false} OccursInTail(a: string, m: string, b: string, q: int)
    requires OccursAt(a + m + b, m, q) && |a| + |m| <= q
    ensures OccursAt(b, m, q - |a| - |m|)
  {
    var s := a + m + b;
    var i := q - |a| - |m|;
    assert s[|a| + |m|..] == b;
    DropSlice(s, |a| + |m|, i, i + |m|);
  }

  /** What `SplitLast` returns is pinned down by its contract: for an
      overlap-free `m`, the text after a final `m` that holds no `m`. */
  lemma {:induction false} SplitLastOf(a: string, m: string, b: string)
    requires m != [] && SelfOverlapFree(m) && !Contains(b, m)
    ensures SplitLast(a + m + b, m) == b
  {
    var s := a + m + b;
    assert s[|a|..|a| + |m|] == m;
    SplitLastIsLast(s, m, |a|);
    SplitLastKeepsTail(a, m, b);
    SplitLastSuffix(s, m);
    assert s[|s| - |b|..] == b;
  }

  /** `sep.join(parts)`. */
  function Join(parts: seq<string>, sep: string): string
    decreases |parts|
  {
    if parts == [] then []
    else if |parts| == 1 then parts[0]
    else parts[0] + sep + Join(parts[1..], sep)
  }

  /** Joining trimmed words with one space gives a trimmed string, and
      nothing only when there are no words. */
  lemma {:induction false} JoinTrimmed(parts: seq<string>)
    requires AllTrimmed(parts)
    ensures parts == [] <==> Join(parts, " ") == []
    ensures parts != [] ==> Trimmed(Join(parts, " "))
    decreases |parts|
  {
    if |parts| > 1 {
      JoinTrimmed(parts[1..]);
      var j := Join(parts[1..], " ");
      assert Join(parts, " ") == parts[0] + " " + j;
      assert (parts[0] + " " + j)[0] == parts[0][0];
      assert (parts[0] + " " + j)[|parts[0] + " " + j| - 1] == j[|j| - 1];
    }
  }

  /** Joining after one more word. */
  lemma {:induction false} JoinSnoc(parts: seq<string>, x: string, sep: string)
    ensures Join(parts + [x], sep) == if parts == [] then x else Join(parts, sep) + sep + x
    decreases |parts|
  {
    if |parts| > 1 {
      assert (parts + [x])[1..] == parts[1..] + [x];
      JoinSnoc(parts[1..], x, sep);
    } else if |parts| == 1 {
      assert (parts + [x])[1..] == [x];
    }
  }

  /** `[strip(t) for t in xs if strip(t)]`. */
  function StrippedNonEmpty(xs: seq<string>): (r: seq<string>)
    ensures |r| <= |xs|
    ensures AllTrimmed(r)
    decreases |xs|
  {
    if xs == [] then []
    else
      var t := Strip(xs[|xs| - 1]);
      var init := StrippedNonEmpty(xs[..|xs| - 1]);
      AllTrimmedConcat(init, if t != [] then [t] else []);
      init + (if t != [] then [t] else [])
  }

  /** Nothing is kept exactly when every element strips to nothing. */
  lemma {:induction false} StrippedNonEmptyEmpty(xs: seq<string>)
    ensures StrippedNonEmpty(xs) == [] <==> forall k :: 0 <= k < |xs| ==> Strip(xs[k]) == []
    decreases |xs|
  {
    if xs != [] {
      var init := xs[..|xs| - 1];
      StrippedNonEmptyEmpty(init);
      assert forall k :: 0 <= k < |init| ==> init[k] == xs[k];
    }
  }

  /** `s.split(c)` for a one-character separator: the pieces between the
      separators, left to right, empty pieces included. */
  function SplitOn(s: string, c: char): (r: seq<string>)
    ensures |r| >= 1
    ensures forall k :: 0 <= k < |r| ==> c !in r[k]
    ensures Join(r, [c]) == s
    decreases |s|
  {
    if s == [] then [[]]
    else
      var rest := SplitOn(s[1..], c);
      if s[0] == c then
        assert Join([[]] + rest, [c]) == [c] + s[1..];
        [[]] + rest
      else
        var r := [[s[0]] + rest[0]] + rest[1..];
        assert Join(r, [c]) == s by {
          JoinHead([s[0]], rest, [c]);
        }
        r
  }

  /** Prepending to the first piece prepends to the join. */
  lemma {:induction false} JoinHead(h: string, parts: seq<string>, sep: string)
    requires parts != []
    ensures Join([h + parts[0]] + parts[1..], sep) == h + Join(parts, sep)
  {
    var q := [h + parts[0]] + parts[1..];
    assert q[1..] == parts[1..];
  }

  /** `s.replace(c, rep)` for a one-character pattern. */
  function ReplaceChar(s: string, c: char, rep: string): (r: string)
    ensures c !in rep ==> c !in r
    decreases |s|
  {
    if s == [] then []
    else (if s[0] == c then rep else [s[0]]) + ReplaceChar(s[1..], c, rep)
  }

  /** Replacing works piecewise: it commutes with concatenation. */
  lemma {:induction false} ReplaceCharConcat(a: string, b: string, c: char, rep: string)
    ensures ReplaceChar(a + b, c, rep) == ReplaceChar(a, c, rep) + ReplaceChar(b, c, rep)
    decreases |a|
  {
    if a != [] {
      assert (a + b)[0] == a[0] && (a + b)[1..] == a[1..] + b;
      ReplaceCharConcat(a[1..], b, c, rep);
    } else {
      assert a + b == b;
    }
  }

  /** A string without `c` is left as it is. */
  lemma {:induction false} ReplaceCharAbsent(s: string, c: char, rep: string)
    requires c !in s
    ensures ReplaceChar(s, c, rep) == s
    decreases |s|
  {
    if s != [] {
      assert s[0] in s;
      assert forall x :: x in s[1..] ==> x in s;
      ReplaceCharAbsent(s[1..], c, rep);
    }
  }
}
