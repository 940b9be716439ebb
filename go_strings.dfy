/**
 The two functions of Go's `strings` package that the deployer calls, `strings.TrimSpace`
 (with `unicode.IsSpace`) and `strings.Split`. `strings.Count` and `strings.Join` are
 here to state what `Split` returns. Strings are sequences of Unicode scalar values
 (Go strings holding valid UTF-8).
 */
module GoStrings {

  /** Go's `unicode.IsSpace`: the Latin-1 white space plus the other code points with the Unicode White_Space property. */
  predicate IsSpace(c: char) {
    var n := c as int;
    || (0x09 <= n <= 0x0D) || n == 0x20 || n == 0x85 || n == 0xA0
    || n == 0x1680 || (0x2000 <= n <= 0x200A) || n == 0x2028 || n == 0x2029
    || n == 0x202F || n == 0x205F || n == 0x3000
  }

  predicate AllSpace(s: string) {
    forall i :: 0 <= i < |s| ==> IsSpace(s[i])
  }

  /** No character of `s` is white space. */
  predicate NoSpace(s: string) {
    forall i :: 0 <= i < |s| ==> !IsSpace(s[i])
  }

  /** `s` neither begins nor ends with white space. */
  predicate NoEdgeSpace(s: string) {
    s == [] || (!IsSpace(s[0]) && !IsSpace(s[|s| - 1]))
  }

  /** `s` is `r`, found at offset `i`, surrounded on both sides by nothing but white space. */
  predicate Surrounds(s: string, i: int, r: string) {
    && 0 <= i && i + |r| <= |s|
    && s[i..i + |r|] == r
    && AllSpace(s[..i])
    && AllSpace(s[i + |r|..])
  }

  /** Removes the leading white space: the result is the longest suffix of `s` that does not start with white space. */
  function TrimLeftSpace(s: string): (r: string)
    ensures |r| <= |s| && r == s[|s| - |r|..]
    ensures AllSpace(s[..|s| - |r|])
    ensures r == [] || !IsSpace(r[0])
    decreases |s|
  {
    if |s| > 0 && IsSpace(s[0]) then
      var r := TrimLeftSpace(s[1..]);
      assert s[..|s| - |r|] == [s[0]] + s[1..][..|s| - 1 - |r|];
      r
    else s
  }

  /** Removes the trailing white space: the result is the longest prefix of `s` that does not end with white space. */
  function TrimRightSpace(s: string): (r: string)
    ensures |r| <= |s| && r == s[..|r|]
    ensures AllSpace(s[|r|..])
    ensures r == [] || !IsSpace(r[|r| - 1])
    decreases |s|
  {
    if |s| > 0 && IsSpace(s[|s| - 1]) then
      var r := TrimRightSpace(s[..|s| - 1]);
      assert s[|r|..] == s[..|s| - 1][|r|..] + [s[|s| - 1]];
      r
    else s
  }

  /** Go's `strings.TrimSpace`: `s` with all leading and trailing white space removed. */
  function TrimSpace(s: string): (r: string)
    ensures NoEdgeSpace(r)
    ensures Surrounds(s, |s| - |TrimLeftSpace(s)|, r)
  {
    var left := TrimLeftSpace(s);
    var r := TrimRightSpace(left);
    SurroundsOfTrims(s, left, r);
    r
  }

  /** A prefix of a suffix, with only white space cut off on either side, is surrounded by that white space. */
  lemma SurroundsOfTrims(s: string, left: string, r: string)
    requires |left| <= |s| && left == s[|s| - |left|..] && AllSpace(s[..|s| - |left|])
    requires |r| <= |left| && r == left[..|r|] && AllSpace(left[|r|..])
    ensures Surrounds(s, |s| - |left|, r)
  {
    var k := |s| - |left|;
    assert s[k..k + |r|] == left[..|r|];
    assert s[k + |r|..] == left[|r|..];
  }

  /** Leading white space in front of a text that does not start with white space is exactly what `TrimLeftSpace` removes. */
  lemma {:induction false} TrimLeftOf(w: string, x: string)
    requires AllSpace(w) && (x == [] || !IsSpace(x[0]))
    ensures TrimLeftSpace(w + x) == x
    decreases |w|
  {
    if w != [] {
      assert (w + x)[1..] == w[1..] + x;
      TrimLeftOf(w[1..], x);
    }
  }

  /** Trailing white space behind a text that does not end with white space is exactly what `TrimRightSpace` removes. */
  lemma {:induction false} TrimRightOf(x: string, w: string)
    requires AllSpace(w) && (x == [] || !IsSpace(x[|x| - 1]))
    ensures TrimRightSpace(x + w) == x
    decreases |w|
  {
    if w != [] {
      var w' := w[..|w| - 1];
      assert (x + w)[..|x + w| - 1] == x + w';
      TrimRightOf(x, w');
    }
  }

  /** The white space around a text is determined by the text: whatever surrounds `t` with white space trims to `t`. */
  lemma TrimSpaceUnique(s: string, i: int, t: string)
    requires Surrounds(s, i, t) && NoEdgeSpace(t)
    ensures TrimSpace(s) == t
  {
    var w1, w2 := s[..i], s[i + |t|..];
    SliceAround(s, i, t);
    if t == [] {
      assert s == w1 + w2;
      assert AllSpace(s) by {
        forall j | 0 <= j < |s| ensures IsSpace(s[j]) {
          if j < |w1| { assert s[j] == w1[j]; } else { assert s[j] == w2[j - |w1|]; }
        }
      }
      TrimLeftOf(s, []);
      assert s + [] == s;
    } else {
      assert s == w1 + (t + w2);
      TrimLeftOf(w1, t + w2);
      TrimRightOf(t, w2);
    }
  }

  /** Trimming twice is trimming once. */
  lemma TrimSpaceIdempotent(s: string)
    ensures TrimSpace(TrimSpace(s)) == TrimSpace(s)
  {
    var r := TrimSpace(s);
    assert r[..0] == [] && r[|r|..] == [] && r[0..|r|] == r;
    TrimSpaceUnique(r, 0, r);
  }

  /** Appending white space keeps a text surrounded by white space. */
  lemma SurroundsAppendSpace(x: string, i: int, r: string, w: string)
    requires Surrounds(x, i, r) && AllSpace(w)
    ensures Surrounds(x + w, i, r)
  {
    var s := x + w;
    assert s[..i + |r|] == x[..i + |r|];
    assert s[i..i + |r|] == x[i..i + |r|];
    assert s[..i] == x[..i];
    var tail, xtail := s[i + |r|..], x[i + |r|..];
    assert tail == xtail + w;
    forall j | 0 <= j < |tail| ensures IsSpace(tail[j]) {
      if j < |xtail| { assert tail[j] == xtail[j]; }
      else { assert tail[j] == w[j - |xtail|]; }
    }
  }

  /** White space appended to a text does not change what it trims to. */
  lemma TrimSpaceIgnoresTrailingSpace(x: string, w: string)
    requires AllSpace(w)
    ensures TrimSpace(x + w) == TrimSpace(x)
  {
    var r := TrimSpace(x);
    var i := |x| - |TrimLeftSpace(x)|;
    SurroundsAppendSpace(x, i, r, w);
    TrimSpaceUnique(x + w, i, r);
  }

  /** `sep` occurs in `s` starting at index `i`. */
  predicate OccursAt(s: string, sep: string, i: int) {
    0 <= i && i + |sep| <= |s| && s[i..i + |sep|] == sep
  }

  /** Go's `strings.Contains`. */
  predicate Contains(s: string, sep: string) {
    exists i :: 0 <= i <= |s| - |sep| && OccursAt(s, sep, i)
  }

  /** The first character of `sep` appears nowhere else in it, so two occurrences of `sep` can never overlap. */
  predicate FirstCharUnique(sep: string) {
    |sep| > 0 && forall k :: 0 < k < |sep| ==> sep[k] != sep[0]
  }

  /** Go's `strings.Count` for a non-empty separator: occurrences found left to right, each search resuming after the previous match. */
  function Count(s: string, sep: string): nat
    requires |sep| > 0
    decreases |s|
  {
    if |s| < |sep| then 0
    else if s[..|sep|] == sep then 1 + Count(s[|sep|..], sep)
    else Count(s[1..], sep)
  }

  /** Go's `strings.Join`. */
  function Join(parts: seq<string>, sep: string): string
  {
    if |parts| == 0 then ""
    else if |parts| == 1 then parts[0]
    else parts[0] + sep + Join(parts[1..], sep)
  }

  /**
   Go's `strings.Split` for a non-empty separator: `s` cut at every occurrence of `sep`
   found by the same left-to-right search as `Count`. There is one more part than there
   are occurrences, and joining the parts with `sep` gives `s` back. These two facts fix
   the parts only for a separator that cannot overlap itself (`FirstCharUnique`, as the
   deployer's marker is); for one such as `"aa"` in `"aaa"` they also admit other cuts.
   */
  function Split(s: string, sep: string): (parts: seq<string>)
    requires |sep| > 0
    ensures |parts| == Count(s, sep) + 1
    ensures Join(parts, sep) == s
    decreases |s|
  {
    if |s| < |sep| then [s]
    else if s[..|sep|] == sep then
      var rest := Split(s[|sep|..], sep);
      JoinExtendHead(sep, [""] + rest, sep);
      assert s == sep + s[|sep|..];
      [""] + rest
    else
      var rest := Split(s[1..], sep);
      JoinExtendHead([s[0]], rest, sep);
      assert s == [s[0]] + s[1..];
      [[s[0]] + rest[0]] + rest[1..]
  }

  /** Text put in front of the first part comes out in front of the joined text. */
  lemma JoinExtendHead(a: string, parts: seq<string>, sep: string)
    requires |parts| >= 1
    ensures Join([a + parts[0]] + parts[1..], sep) == a + Join(parts, sep)
  {
    var q := [a + parts[0]] + parts[1..];
    assert q[1..] == parts[1..];
  }

  /** Dropping the first character shifts every later occurrence one place to the left. */
  lemma OccursShift(s: string, sep: string, i: int)
    requires |s| > 0 && i >= 1
    ensures OccursAt(s, sep, i) <==> OccursAt(s[1..], sep, i - 1)
  {
    if i + |sep| <= |s| {
      assert s[1..][i - 1..i - 1 + |sep|] == s[i..i + |sep|];
    }
  }

  /** Every occurrence is found by the left-to-right search. */
  lemma {:induction false} CountedIfPresent(s: string, sep: string, i: int)
    requires |sep| > 0 && OccursAt(s, sep, i)
    ensures Count(s, sep) >= 1
    decreases i
  {
    if s[..|sep|] != sep {
      assert i != 0;
      OccursShift(s, sep, i);
      CountedIfPresent(s[1..], sep, i - 1);
    }
  }

  /** Where the separator does not occur, the search finds nothing. */
  lemma {:induction false} UncountedIfAbsent(s: string, sep: string)
    requires |sep| > 0 && !Contains(s, sep)
    ensures Count(s, sep) == 0
    decreases |s|
  {
    if |s| >= |sep| {
      assert !OccursAt(s, sep, 0);
      forall i | 0 <= i <= |s[1..]| - |sep| ensures !OccursAt(s[1..], sep, i) {
        OccursShift(s, sep, i + 1);
      }
      UncountedIfAbsent(s[1..], sep);
    }
  }

  /** A text has no occurrence of `sep` exactly when `Count` finds none. */
  lemma CountZeroIffAbsent(s: string, sep: string)
    requires |sep| > 0
    ensures Count(s, sep) == 0 <==> !Contains(s, sep)
  {
    if Contains(s, sep) {
      var i :| 0 <= i <= |s| - |sep| && OccursAt(s, sep, i);
      CountedIfPresent(s, sep, i);
    } else {
      UncountedIfAbsent(s, sep);
    }
  }

  /** Positions before `k` where no occurrence starts contribute nothing to the count. */
  lemma {:induction false} CountSkip(s: string, sep: string, k: nat)
    requires |sep| > 0 && k <= |s|
    requires forall i :: 0 <= i < k ==> !OccursAt(s, sep, i)
    ensures Count(s, sep) == Count(s[k..], sep)
    decreases k
  {
    if k > 0 && |s| >= |sep| {
      assert !OccursAt(s, sep, 0);
      forall i | 0 <= i < k - 1 ensures !OccursAt(s[1..], sep, i) {
        assert !OccursAt(s, sep, i + 1);
        if i + |sep| <= |s| - 1 {
          assert s[1..][i..i + |sep|] == s[i + 1..i + 1 + |sep|];
        }
      }
      CountSkip(s[1..], sep, k - 1);
      assert s[1..][k - 1..] == s[k..];
    }
  }

  /** Leading white space holds no occurrence of a separator that starts with a non-space character. */
  lemma CountIgnoresLeadingSpace(w: string, t: string, sep: string)
    requires |sep| > 0 && !IsSpace(sep[0]) && AllSpace(w)
    ensures Count(w + t, sep) == Count(t, sep)
  {
    var s := w + t;
    forall i | 0 <= i < |w| ensures !OccursAt(s, sep, i) {
      assert s[i] == w[i];
      if i + |sep| <= |s| {
        assert s[i..i + |sep|][0] == s[i];
      }
    }
    CountSkip(s, sep, |w|);
    assert s[|w|..] == t;
  }

  /** Trailing white space can neither hold nor complete an occurrence of a separator that has no white space in it. */
  lemma {:induction false} CountIgnoresTrailingSpace(t: string, w: string, sep: string)
    requires |sep| > 0 && NoSpace(sep) && AllSpace(w)
    ensures Count(t + w, sep) == Count(t, sep)
    decreases |t|
  {
    var s := t + w;
    if |s| < |sep| {
    } else if s[..|sep|] == sep {
      assert s[|sep| - 1] == s[..|sep|][|sep| - 1] == sep[|sep| - 1];
      assert forall m :: |t| <= m < |s| ==> s[m] == w[m - |t|];
      assert t[..|sep|] == s[..|sep|];
      assert s[|sep|..] == t[|sep|..] + w;
      CountIgnoresTrailingSpace(t[|sep|..], w, sep);
    } else if |t| == 0 {
      assert s == w + "";
      CountIgnoresLeadingSpace(w, "", sep);
    } else {
      assert s[1..] == t[1..] + w;
      CountIgnoresTrailingSpace(t[1..], w, sep);
      if |t| >= |sep| {
        assert t[..|sep|] == s[..|sep|];
      }
    }
  }

  /** White space around a text never holds or completes an occurrence of a separator without white space. */
  lemma CountSurrounded(s: string, i: int, t: string, sep: string)
    requires |sep| > 0 && NoSpace(sep) && Surrounds(s, i, t)
    ensures Count(t, sep) == Count(s, sep)
  {
    var head, tail := s[..i], s[i + |t|..];
    SliceAround(s, i, t);
    assert head + t + tail == head + (t + tail);
    CountIgnoresLeadingSpace(head, t + tail, sep);
    CountIgnoresTrailingSpace(t, tail, sep);
  }

  /** Trimming white space never changes how often a separator without white space occurs. */
  lemma CountTrimSpace(s: string, sep: string)
    requires |sep| > 0 && NoSpace(sep)
    ensures Count(TrimSpace(s), sep) == Count(s, sep)
  {
    CountSurrounded(s, |s| - |TrimLeftSpace(s)|, TrimSpace(s), sep);
  }

  /** Two occurrences of a separator that starts at index 0 and at `j > 0`: the count sees both, as they cannot overlap. */
  lemma CountTwoFromStart(s: string, sep: string, j: int)
    requires FirstCharUnique(sep) && OccursAt(s, sep, 0) && OccursAt(s, sep, j) && j > 0
    ensures Count(s, sep) >= 2
  {
    assert s[j] == s[j..j + |sep|][0] == sep[0];
    assert forall m :: 0 <= m < |sep| ==> s[m] == s[..|sep|][m];
    var rest := s[|sep|..];
    assert rest[j - |sep|..j] == s[j..j + |sep|];
    assert OccursAt(rest, sep, j - |sep|);
    CountZeroIffAbsent(rest, sep);
  }

  /** Two different occurrences of a separator whose first character is unique are both counted. */
  lemma {:induction false} CountTwoOccurrences(s: string, sep: string, i: int, j: int)
    requires FirstCharUnique(sep) && OccursAt(s, sep, i) && OccursAt(s, sep, j) && i != j
    ensures Count(s, sep) >= 2
    decreases |s|
  {
    if s[..|sep|] == sep {
      assert OccursAt(s, sep, 0);
      if i != 0 { CountTwoFromStart(s, sep, i); } else { CountTwoFromStart(s, sep, j); }
    } else {
      assert i != 0 && j != 0;
      assert s[1..][i - 1..i - 1 + |sep|] == s[i..i + |sep|];
      assert s[1..][j - 1..j - 1 + |sep|] == s[j..j + |sep|];
      CountTwoOccurrences(s[1..], sep, i - 1, j - 1);
    }
  }

  /** A separator whose first character does not appear in `s` does not occur in it. */
  lemma AbsentFirstChar(s: string, sep: string)
    requires |sep| > 0 && sep[0] !in s
    ensures !Contains(s, sep)
  {
    forall i | 0 <= i <= |s| - |sep| ensures !OccursAt(s, sep, i) {
      assert s[i..i + |sep|][0] == s[i];
    }
  }

  /** A separator that does not occur in a text does not occur in any slice of it. */
  lemma AbsentFromSlice(s: string, sep: string, i: int, j: int)
    requires 0 <= i <= j <= |s| && !Contains(s, sep)
    ensures !Contains(s[i..j], sep)
  {
    var t := s[i..j];
    forall k | 0 <= k <= |t| - |sep| ensures !OccursAt(t, sep, k) {
      var u, v := t[k..k + |sep|], s[i + k..i + k + |sep|];
      assert forall m :: 0 <= m < |sep| ==> u[m] == v[m];
      assert u == v;
      assert !OccursAt(s, sep, i + k);
    }
  }

  /** An occurrence inside a slice is an occurrence in the whole text, shifted by the slice's start. */
  lemma OccursWithin(s: string, i: int, t: string, sep: string, k: int)
    requires 0 <= i && i + |t| <= |s| && s[i..i + |t|] == t && OccursAt(t, sep, k)
    ensures OccursAt(s, sep, i + k)
  {
    var u, v := s[i + k..i + k + |sep|], t[k..k + |sep|];
    assert forall m :: 0 <= m < |sep| ==> u[m] == s[i + k + m] == t[k + m] == v[m];
    assert u == v;
  }

  lemma OccursBetween(a: string, sep: string, b: string)
    ensures OccursAt(a + sep + b, sep, |a|)
  {
    assert (a + sep + b)[|a|..|a| + |sep|] == sep;
  }

  /** A text in which the separator occurs once splits into the text before it and the text after it. */
  lemma SplitOnce(s: string, sep: string)
    requires |sep| > 0 && Count(s, sep) == 1
    ensures |Split(s, sep)| == 2
    ensures s == Split(s, sep)[0] + sep + Split(s, sep)[1]
  {
    var parts := Split(s, sep);
    var rest := parts[1..];
    assert rest == [parts[1]];
    assert Join(rest, sep) == parts[1];
    assert Join(parts, sep) == parts[0] + sep + Join(rest, sep);
  }

  lemma SliceAround(s: string, i: int, t: string)
    requires 0 <= i && i + |t| <= |s| && s[i..i + |t|] == t
    ensures s == s[..i] + t + s[i + |t|..]
  {
    assert s == s[..i] + s[i..i + |t|] + s[i + |t|..];
  }

  /** Cutting two texts around a separator at the same offset gives the same pieces. */
  lemma CutAtSameOffset(a: string, b: string, c: string, d: string, sep: string)
    requires a + sep + b == c + sep + d && |a| == |c|
    ensures a == c && b == d
  {
    var s := a + sep + b;
    assert a == s[..|a|] && c == s[..|c|];
    assert b == s[|a| + |sep|..] && d == s[|c| + |sep|..];
  }

  lemma Regroup(x: string, p0: string, sep: string, p1: string, y: string)
    ensures x + (p0 + sep + p1) + y == (x + p0) + sep + (p1 + y)
  {
  }

  lemma SurroundsConcat(w1: string, t: string, w2: string)
    requires AllSpace(w1) && AllSpace(w2)
    ensures Surrounds(w1 + t + w2, |w1|, t)
  {
    var s := w1 + t + w2;
    assert s[..|w1|] == w1 && s[|w1|..|w1| + |t|] == t && s[|w1| + |t|..] == w2;
  }

  /** When the separator occurs once, the text after it holds no further occurrence. */
  lemma NothingAfterSoleOccurrence(s: string, a: string, b: string, sep: string)
    requires FirstCharUnique(sep) && s == a + sep + b && Count(s, sep) == 1
    ensures !Contains(b, sep)
  {
    OccursBetween(a, sep, b);
    forall m | 0 <= m <= |b| - |sep| ensures !OccursAt(b, sep, m) {
      if OccursAt(b, sep, m) {
        assert s[|a| + |sep|..|a| + |sep| + |b|] == b;
        OccursWithin(s, |a| + |sep|, b, sep, m);
        CountTwoOccurrences(s, sep, |a|, |a| + |sep| + m);
      }
    }
  }

  /**
   A separator that occurs once in `s`, at `|before|`, occurs once in the text `t` that white
   space surrounds in `s`, and what follows it in `s` is what follows it in `t`, plus the
   trailing white space.
   */
  lemma SoleOccurrenceSurrounded(s: string, i: int, t: string, sep: string, before: string, after: string)
    requires FirstCharUnique(sep) && NoSpace(sep) && Surrounds(s, i, t)
    requires s == before + sep + after && Count(s, sep) == 1
    ensures |Split(t, sep)| == 2
    ensures after == Split(t, sep)[1] + s[i + |t|..]
  {
    CountSurrounded(s, i, t, sep);
    SplitOnce(t, sep);
    var parts := Split(t, sep);
    SameSoleOccurrence(s, i, t, sep, before, after, parts[0], parts[1]);
    PiecesAfterSoleOccurrence(s, i, t, sep, before, after, parts[0], parts[1]);
  }

  /** An occurrence inside a slice of `s` is the sole occurrence of `s`. */
  lemma SameSoleOccurrence(s: string, i: int, t: string, sep: string, before: string, after: string, p0: string, p1: string)
    requires FirstCharUnique(sep) && 0 <= i && i + |t| <= |s| && s[i..i + |t|] == t
    requires t == p0 + sep + p1 && s == before + sep + after && Count(s, sep) == 1
    ensures i + |p0| == |before|
  {
    OccursBetween(p0, sep, p1);
    OccursWithin(s, i, t, sep, |p0|);
    OccursBetween(before, sep, after);
    if i + |p0| != |before| {
      CountTwoOccurrences(s, sep, i + |p0|, |before|);
    }
  }

  /** Cutting `s` at the separator inside its slice `t` leaves, after the separator, the rest of `t` and then the rest of `s`. */
  lemma PiecesAfterSoleOccurrence(s: string, i: int, t: string, sep: string, before: string, after: string, p0: string, p1: string)
    requires 0 <= i && i + |t| <= |s| && s[i..i + |t|] == t
    requires t == p0 + sep + p1 && s == before + sep + after && i + |p0| == |before|
    ensures after == p1 + s[i + |t|..]
  {
    var head, tail := s[..i], s[i + |t|..];
    SliceAround(s, i, t);
    Regroup(head, p0, sep, p1, tail);
    CutAtSameOffset(before, after, head + p0, p1 + tail, sep);
  }

  /**
   A text in which a separator without white space and with a unique first character
   occurs once, at `|before|`: after trimming the text, the split still has two parts,
   and the second part trims to what followed the separator, trimmed.
   */
  lemma SplitTrimmedOnce(s: string, sep: string, before: string, after: string)
    requires FirstCharUnique(sep) && NoSpace(sep)
    requires s == before + sep + after && Count(s, sep) == 1
    ensures |Split(TrimSpace(s), sep)| == 2
    ensures TrimSpace(Split(TrimSpace(s), sep)[1]) == TrimSpace(after)
  {
    var t := TrimSpace(s);
    var i := |s| - |TrimLeftSpace(s)|;
    SoleOccurrenceSurrounded(s, i, t, sep, before, after);
    TrimSpaceIgnoresTrailingSpace(Split(t, sep)[1], s[i + |t|..]);
  }

  /** Trimming cannot create an occurrence. */
  lemma TrimmedAbsent(b: string, sep: string)
    requires !Contains(b, sep)
    ensures !Contains(TrimSpace(b), sep)
  {
    var r := TrimSpace(b);
    var k := |b| - |TrimLeftSpace(b)|;
    assert Surrounds(b, k, r);
    AbsentFromSlice(b, sep, k, k + |r|);
  }

  /** When a separator with a unique first character occurs once, the trimmed text after it does not contain it. */
  lemma SoleSplitTailAbsent(s: string, sep: string)
    requires FirstCharUnique(sep) && Count(s, sep) == 1
    ensures |Split(s, sep)| == 2
    ensures !Contains(TrimSpace(Split(s, sep)[1]), sep)
  {
    SplitOnce(s, sep);
    var parts := Split(s, sep);
    NothingAfterSoleOccurrence(s, parts[0], parts[1], sep);
    TrimmedAbsent(parts[1], sep);
  }
}
