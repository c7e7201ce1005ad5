/** Substring search in both directions with the strong (optimised) Knuth-Morris-Pratt tables. */
module Kmp {

  // ---------------------------------------------------------------- borders

  /** `k` is the length of a proper border of the first `i` characters. */
  predicate Border<T(==)>(p: seq<T>, k: int, i: int) {
    0 <= k < i <= |p| && p[..k] == p[i - k..i]
  }

  /** A border after which the pattern goes on differently; at the end of the pattern any border will do. */
  predicate StrongBorder<T(==)>(p: seq<T>, k: int, i: int) {
    Border(p, k, i) && (i < |p| ==> p[k] != p[i])
  }

  /** The longest strong border of length at most `k`, or -1. */
  function LongestStrong<T(==)>(p: seq<T>, i: int, k: int): (r: int)
    requires i <= |p|
    ensures -1 <= r && (0 <= k ==> r <= k)
    ensures r >= 0 ==> StrongBorder(p, r, i)
    ensures forall l :: r < l <= k ==> !StrongBorder(p, l, i)
    decreases k
  {
    if k < 0 then -1 else if StrongBorder(p, k, i) then k else LongestStrong(p, i, k - 1)
  }

  /** The strong failure function of the pattern. */
  function Strong<T(==)>(p: seq<T>, i: int): (r: int)
    requires 0 <= i <= |p|
    ensures -1 <= r < i || r == -1
    ensures r >= 0 ==> StrongBorder(p, r, i)
    ensures forall l :: r < l ==> !StrongBorder(p, l, i)
  {
    LongestStrong(p, i, i - 1)
  }

  lemma StrongUnique<T>(p: seq<T>, i: int, r: int)
    requires 0 <= i <= |p| && r >= -1
    requires r >= 0 ==> StrongBorder(p, r, i)
    requires forall l :: r < l ==> !StrongBorder(p, l, i)
    ensures r == Strong(p, i)
  {
    var q := Strong(p, i);
    assert q > r ==> StrongBorder(p, q, i);
    assert r > q ==> StrongBorder(p, r, i);
  }

  ghost predicate IsTable<T>(p: seq<T>, t: seq<int>) {
    |t| == |p| + 1 && forall i :: 0 <= i <= |p| ==> t[i] == Strong(p, i)
  }

  /** Borders of a border. */
  lemma BorderOfBorder<T>(p: seq<T>, l: int, k: int, i: int)
    requires Border(p, k, i) && l < k
    ensures Border(p, l, k) <==> Border(p, l, i)
  {
    if 0 <= l {
      assert p[..k][k - l..] == p[k - l..k];
      assert p[i - k..i][k - l..] == p[i - l..i];
    }
  }

  lemma BorderExtends<T>(p: seq<T>, k: int, i: int)
    requires 0 <= k < i < |p|
    ensures Border(p, k + 1, i + 1) <==> Border(p, k, i) && p[k] == p[i]
  {
    assert p[..k + 1] == p[..k] + [p[k]];
    assert p[i - k..i + 1] == p[i - k..i] + [p[i]];
  }

  /** What the inner loop of the table builder knows: `j` is a border of the first `i` characters (or -1), and no
      longer border can be extended by the next character. */
  ghost predicate Candidate<T>(p: seq<T>, i: int, j: int) {
    && 0 <= i < |p| && -1 <= j < i
    && (j >= 0 ==> Border(p, j, i))
    && (forall l :: j < l && Border(p, l, i) ==> p[l] != p[i])
  }

  /** `j` is the longest proper border of the first `i` characters. */
  ghost predicate Longest<T>(p: seq<T>, i: int, j: int) {
    && 0 <= i <= |p| && -1 <= j
    && (if i == 0 then j == -1 else Border(p, j, i))
    && (forall l :: j < l ==> !Border(p, l, i))
  }

  lemma CandidateFalls<T>(p: seq<T>, i: int, j: int)
    requires Candidate(p, i, j) && j >= 0 && p[i] != p[j]
    ensures Candidate(p, i, Strong(p, j))
  {
    var k := Strong(p, j);
    if k >= 0 { BorderOfBorder(p, k, j, i); }
    forall l | k < l && Border(p, l, i) ensures p[l] != p[i] {
      if l < j {
        BorderOfBorder(p, l, j, i);
        assert !StrongBorder(p, l, j);
      }
    }
  }

  lemma CandidateGrows<T>(p: seq<T>, i: int, j: int)
    requires Candidate(p, i, j) && (j >= 0 ==> p[i] == p[j])
    ensures Longest(p, i + 1, j + 1)
  {
    if j >= 0 { BorderExtends(p, j, i); }
    var i1 := i + 1;
    forall l | Border(p, l, i1) ensures l <= j + 1 {
      if l > 0 { BorderExtends(p, l - 1, i); }
    }
  }

  lemma TableStarts<T>(p: seq<T>)
    ensures Longest(p, 0, -1) && Strong(p, 0) == -1
  {
  }

  lemma LongestIsCandidate<T>(p: seq<T>, i: int, j: int)
    requires Longest(p, i, j) && i < |p|
    ensures Candidate(p, i, j)
  {
  }

  /** From the longest border to the strong one. */
  lemma LongestToStrong<T>(p: seq<T>, i: int, j: int)
    requires Longest(p, i, j) && 0 < i
    ensures Strong(p, i) == if i < |p| && p[i] == p[j] then Strong(p, j) else j
  {
    if i < |p| && p[i] == p[j] {
      var k := Strong(p, j);
      if k >= 0 { BorderOfBorder(p, k, j, i); }
      forall l | k < l ensures !StrongBorder(p, l, i) {
        if Border(p, l, i) && l < j {
          BorderOfBorder(p, l, j, i);
          assert !StrongBorder(p, l, j);
        }
      }
      StrongUnique(p, i, k);
    } else {
      StrongUnique(p, i, j);
    }
  }

  /** Builds the table from left to right. The number of character comparisons is at most three times the length
      of the needle. */
  method BuildTable<T(==)>(needle: seq<T>, table: array<int>) returns (ghost comparisons: nat)
    requires table.Length == |needle| + 1
    modifies table
    ensures IsTable(needle, table[..])
    ensures comparisons <= 3 * |needle|
  {
    hide Border, StrongBorder, Strong;
    var i, j := 0, -1;
    table[i] := j;
    comparisons := 0;
    TableStarts(needle);
    while i < |needle|
      invariant 0 <= i <= |needle| && Longest(needle, i, j)
      invariant forall k :: 0 <= k <= i ==> table[k] == Strong(needle, k)
      invariant comparisons <= 3 * i - j - 1
    {
      LongestIsCandidate(needle, i, j);
      while j > -1 && needle[i] != needle[j]
        invariant Candidate(needle, i, j)
        invariant forall k :: 0 <= k <= i ==> table[k] == Strong(needle, k)
        invariant comparisons <= 3 * i - j - 1
        decreases j
      {
        CandidateFalls(needle, i, j);
        j := table[j];
        comparisons := comparisons + 1;
      }
      if j > -1 { comparisons := comparisons + 1; }
      CandidateGrows(needle, i, j);
      i := i + 1;
      j := j + 1;
      LongestToStrong(needle, i, j);
      if i < |needle| {
        comparisons := comparisons + 1;
        if needle[i] == needle[j] {
          table[i] := table[j];
        } else {
          table[i] := j;
        }
      } else {
        table[i] := j;
      }
    }
  }

  // ---------------------------------------------------------------- searching

  /** The first `k` characters of the needle end at position `j` of the haystack. */
  predicate Match<T(==)>(p: seq<T>, h: seq<T>, k: int, j: int) {
    0 <= k <= |p| && k <= j <= |h| && p[..k] == h[j - k..j]
  }

  predicate OccursAt<T(==)>(p: seq<T>, h: seq<T>, s: int) {
    0 <= s && s + |p| <= |h| && h[s..s + |p|] == p
  }

  lemma OccursIsMatch<T>(p: seq<T>, h: seq<T>, s: int)
    requires 0 <= s
    ensures OccursAt(p, h, s) <==> Match(p, h, |p|, s + |p|)
  {
    assert p[..|p|] == p;
  }

  lemma MatchOfBorder<T>(p: seq<T>, h: seq<T>, l: int, k: int, j: int)
    requires Match(p, h, k, j) && l < k
    ensures Match(p, h, l, j) <==> Border(p, l, k)
  {
    if 0 <= l {
      assert h[j - k..j][k - l..] == h[j - l..j];
      assert p[..k][k - l..] == p[k - l..k];
    }
  }

  lemma MatchExtends<T>(p: seq<T>, h: seq<T>, k: int, j: int)
    requires 0 <= k < |p| && 0 <= j < |h|
    ensures Match(p, h, k + 1, j + 1) <==> Match(p, h, k, j) && p[k] == h[j]
  {
    if k <= j {
      assert p[..k + 1] == p[..k] + [p[k]];
      assert h[j - k..j + 1] == h[j - k..j] + [h[j]];
    }
  }

  lemma MatchShrinks<T>(p: seq<T>, h: seq<T>, k: int, j: int, d: int)
    requires Match(p, h, k, j) && 0 <= d <= k
    ensures Match(p, h, k - d, j - d)
  {
    assert p[..k][..k - d] == p[..k - d];
    assert h[j - k..j][..k - d] == h[j - k..j - d];
  }

  /** The inner loop of the search: no match longer than `i` that ends here can be extended. */
  ghost predicate Tracking<T>(p: seq<T>, h: seq<T>, i: int, j: int) {
    && 0 <= j < |h| && -1 <= i < |p|
    && (i >= 0 ==> Match(p, h, i, j))
    && (forall l :: i < l < |p| && Match(p, h, l, j) ==> p[l] != h[j])
  }

  /** `i` characters match here, and no more. */
  ghost predicate Best<T>(p: seq<T>, h: seq<T>, i: int, j: int) {
    Match(p, h, i, j) && forall l :: i < l <= |p| ==> !Match(p, h, l, j)
  }

  lemma TrackingFalls<T>(p: seq<T>, h: seq<T>, i: int, j: int)
    requires Tracking(p, h, i, j) && i >= 0 && p[i] != h[j]
    ensures Tracking(p, h, Strong(p, i), j)
  {
    var k := Strong(p, i);
    if k >= 0 { MatchOfBorder(p, h, k, i, j); }
    forall l | k < l < |p| && Match(p, h, l, j) ensures p[l] != h[j] {
      if l < i {
        MatchOfBorder(p, h, l, i, j);
        assert !StrongBorder(p, l, i);
      }
    }
  }

  lemma TrackingGrows<T>(p: seq<T>, h: seq<T>, i: int, j: int)
    requires Tracking(p, h, i, j) && (i >= 0 ==> p[i] == h[j])
    ensures Best(p, h, i + 1, j + 1)
  {
    if i >= 0 { MatchExtends(p, h, i, j); }
    var j1 := j + 1;
    forall l | Match(p, h, l, j1) ensures l <= i + 1 {
      if l > 0 { MatchExtends(p, h, l - 1, j); }
    }
  }

  /** When what is left of the haystack cannot complete the match in progress, nothing can. */
  lemma TooLate<T>(p: seq<T>, h: seq<T>, i: int, j: int, t: int)
    requires Best(p, h, i, j) && j < t <= |h| && |h| - j + i < |p|
    ensures !Match(p, h, |p|, t)
  {
    if Match(p, h, |p|, t) { MatchShrinks(p, h, |p|, t, t - j); }
  }

  ghost predicate IsLeftmost<T>(p: seq<T>, h: seq<T>, pos: int) {
    && pos >= -1
    && (pos >= 0 ==> OccursAt(p, h, pos))
    && (forall s :: 0 <= s && (pos >= 0 ==> s < pos) ==> !OccursAt(p, h, s))
  }

  ghost predicate NoMatchUpTo<T>(p: seq<T>, h: seq<T>, j: int) {
    forall t :: t <= j ==> !Match(p, h, |p|, t)
  }

  lemma NoMatchNoOccurrence<T>(p: seq<T>, h: seq<T>, j: int)
    requires NoMatchUpTo(p, h, j)
    ensures forall s :: 0 <= s && s + |p| <= j ==> !OccursAt(p, h, s)
  {
    forall s | 0 <= s && s + |p| <= j ensures !OccursAt(p, h, s) { OccursIsMatch(p, h, s); }
  }

  lemma BestIsTracking<T>(p: seq<T>, h: seq<T>, i: int, j: int)
    requires Best(p, h, i, j) && i < |p| && j < |h|
    ensures Tracking(p, h, i, j)
  {
  }

  lemma SearchStarts<T>(p: seq<T>, h: seq<T>)
    requires |p| > 0
    ensures Best(p, h, 0, 0) && NoMatchUpTo(p, h, 0)
  {
  }

  lemma SearchFails<T>(p: seq<T>, h: seq<T>)
    requires NoMatchUpTo(p, h, |h|)
    ensures IsLeftmost(p, h, -1)
  {
    NoMatchNoOccurrence(p, h, |h|);
  }

  lemma SearchSucceeds<T>(p: seq<T>, h: seq<T>, j: int)
    requires Best(p, h, |p|, j) && NoMatchUpTo(p, h, j - 1)
    ensures IsLeftmost(p, h, j - |p|)
  {
    OccursIsMatch(p, h, j - |p|);
    NoMatchNoOccurrence(p, h, j - 1);
  }

  /** Searches from left to right: the leftmost occurrence, or -1 exactly when there is none, after at most twice
      as many character comparisons as the haystack is long. */
  method Find<T(==)>(haystack: seq<T>, needle: seq<T>, table: array<int>) returns (pos: int, ghost comparisons: nat)
    requires |needle| > 0 && IsTable(needle, table[..])
    ensures IsLeftmost(needle, haystack, pos)
    ensures comparisons <= 2 * |haystack|
  {
    hide Border, StrongBorder, Strong, Match, OccursAt, IsLeftmost;
    var i, j := 0, 0;
    comparisons := 0;
    SearchStarts(needle, haystack);
    while j < |haystack| && |haystack| - j + i >= |needle|
      invariant 0 <= i <= j <= |haystack| && i < |needle|
      invariant Best(needle, haystack, i, j) && NoMatchUpTo(needle, haystack, j)
      invariant comparisons <= 2 * j - i
    {
      BestIsTracking(needle, haystack, i, j);
      while i > -1 && needle[i] != haystack[j]
        invariant Tracking(needle, haystack, i, j)
        invariant comparisons <= 2 * j - i
        decreases i
      {
        TrackingFalls(needle, haystack, i, j);
        assert table[..][i] == Strong(needle, i);
        i := table[i];
        comparisons := comparisons + 1;
      }
      if i > -1 { comparisons := comparisons + 1; }
      TrackingGrows(needle, haystack, i, j);
      i := i + 1;
      j := j + 1;
      if i >= |needle| {
        pos := j - i;
        SearchSucceeds(needle, haystack, j);
        return;
      }
    }
    forall t | t <= |haystack| ensures !Match(needle, haystack, |needle|, t) {
      if j < t { TooLate(needle, haystack, i, j, t); }
    }
    SearchFails(needle, haystack);
    pos := -1;
  }

  // ---------------------------------------------------------------- from right to left

  function Reverse<T>(s: seq<T>): (r: seq<T>)
    ensures |r| == |s|
    ensures forall i :: 0 <= i < |s| ==> r[i] == s[|s| - 1 - i]
  {
    seq(|s|, i requires 0 <= i < |s| => s[|s| - 1 - i])
  }

  /** The right-to-left table is the mirror image of the left-to-right table of the reversed needle: both the
      positions and the values count from the other end. */
  ghost predicate IsMirrorTable<T>(p: seq<T>, t: seq<int>) {
    |t| == |p| + 1 && forall k :: 0 <= k <= |p| ==> t[k] == |p| - 1 - Strong(Reverse(p), |p| - k)
  }

  /** Builds the table from right to left. */
  method BuildTableR<T(==)>(needle: seq<T>, table: array<int>) returns (ghost comparisons: nat)
    requires table.Length == |needle| + 1
    modifies table
    ensures IsMirrorTable(needle, table[..])
    ensures comparisons <= 3 * |needle|
  {
    hide Border, StrongBorder, Strong, Reverse;
    ghost var p := Reverse(needle);
    var n := |needle|;
    var i := n - 1;
    var j := i + 1;
    ghost var a, b := 0, -1;
    table[i + 1] := j;
    comparisons := 0;
    TableStarts(p);
    while i >= 0
      invariant 0 <= a <= n && i == n - 1 - a && j == n - 1 - b && Longest(p, a, b)
      invariant forall k :: i + 1 <= k <= n ==> table[k] == n - 1 - Strong(p, n - k)
      invariant comparisons <= 3 * a - b - 1
    {
      LongestIsCandidate(p, a, b);
      while j < n && needle[i] != needle[j]
        invariant Candidate(p, a, b) && j == n - 1 - b
        invariant forall k :: i + 1 <= k <= n ==> table[k] == n - 1 - Strong(p, n - k)
        invariant comparisons <= 3 * a - b - 1
        decreases n - j
      {
        CandidateFalls(p, a, b);
        b := Strong(p, b);
        j := table[j + 1];
        comparisons := comparisons + 1;
      }
      if j < n { comparisons := comparisons + 1; }
      CandidateGrows(p, a, b);
      i, a := i - 1, a + 1;
      j, b := j - 1, b + 1;
      LongestToStrong(p, a, b);
      if i >= 0 {
        comparisons := comparisons + 1;
        if needle[i] == needle[j] {
          table[i + 1] := table[j + 1];
        } else {
          table[i + 1] := j;
        }
      } else {
        table[i + 1] := j;
      }
    }
  }

  ghost predicate IsRightmost<T>(p: seq<T>, h: seq<T>, pos: int) {
    && pos >= -1
    && (pos >= 0 ==> OccursAt(p, h, pos))
    && (forall s :: OccursAt(p, h, s) ==> s <= pos)
  }

  lemma OccursMirror<T>(p: seq<T>, h: seq<T>, s: int)
    ensures OccursAt(p, h, s) <==> OccursAt(Reverse(p), Reverse(h), |h| - |p| - s)
  {
    var s' := |h| - |p| - s;
    if 0 <= s && s + |p| <= |h| {
      if OccursAt(p, h, s) {
        forall i | 0 <= i < |p| ensures Reverse(h)[s'..s' + |p|][i] == Reverse(p)[i] {
          assert h[s..s + |p|][|p| - 1 - i] == p[|p| - 1 - i];
        }
      }
      if OccursAt(Reverse(p), Reverse(h), s') {
        forall i | 0 <= i < |p| ensures h[s..s + |p|][i] == p[i] {
          assert Reverse(h)[s'..s' + |p|][|p| - 1 - i] == Reverse(p)[|p| - 1 - i];
        }
      }
    }
  }

  /** The rightmost occurrence is the mirror of the leftmost one. */
  lemma RightmostMirror<T>(p: seq<T>, h: seq<T>, pos: int)
    requires IsLeftmost(Reverse(p), Reverse(h), pos)
    ensures IsRightmost(p, h, if pos == -1 then -1 else |h| - |p| - pos)
  {
    if pos >= 0 { OccursMirror(p, h, |h| - |p| - pos); }
    forall s | OccursAt(p, h, s) ensures pos >= 0 && s <= |h| - |p| - pos {
      OccursMirror(p, h, s);
    }
  }

  /** Searches from right to left: the rightmost occurrence, or -1 exactly when there is none. */
  method FindR<T(==)>(haystack: seq<T>, needle: seq<T>, table: array<int>) returns (pos: int, ghost comparisons: nat)
    requires |needle| > 0 && IsMirrorTable(needle, table[..])
    ensures IsRightmost(needle, haystack, pos)
    ensures comparisons <= 2 * |haystack|
  {
    hide Border, StrongBorder, Strong, Reverse, Match, OccursAt, IsLeftmost, IsRightmost;
    ghost var p, h := Reverse(needle), Reverse(haystack);
    var m, n := |haystack|, |needle|;
    var j, i := m - 1, n - 1;
    ghost var a, b := 0, 0;
    comparisons := 0;
    SearchStarts(p, h);
    while j >= 0 && j >= i
      invariant 0 <= a <= b <= m && a < n && i == n - 1 - a && j == m - 1 - b
      invariant Best(p, h, a, b) && NoMatchUpTo(p, h, b)
      invariant comparisons <= 2 * b - a
    {
      BestIsTracking(p, h, a, b);
      while i < n && needle[i] != haystack[j]
        invariant Tracking(p, h, a, b) && i == n - 1 - a
        invariant comparisons <= 2 * b - a
        decreases n - i
      {
        TrackingFalls(p, h, a, b);
        assert table[..][i + 1] == n - 1 - Strong(p, a);
        a := Strong(p, a);
        i := table[i + 1];
        comparisons := comparisons + 1;
      }
      if i < n { comparisons := comparisons + 1; }
      TrackingGrows(p, h, a, b);
      i, a := i - 1, a + 1;
      j, b := j - 1, b + 1;
      if i < 0 {
        pos := j + 1;
        SearchSucceeds(p, h, b);
        RightmostMirror(needle, haystack, b - n);
        return;
      }
    }
    forall t | t <= m ensures !Match(p, h, n, t) {
      if b < t { TooLate(p, h, a, b, t); }
    }
    SearchFails(p, h);
    RightmostMirror(needle, haystack, -1);
    pos := -1;
  }

  // ---------------------------------------------------------------- the string operations

  /** Finds the leftmost occurrence that starts at or after `start`, or -1 exactly when there is none. A negative start
      counts from the end, -1 being the last character. An empty needle is never found. A start before the string is
      read only if the needle could lie between it and the end. */
  method StringFind<T(==)>(s: seq<T>, start: int, needle: seq<T>) returns (pos: int, ghost comparisons: nat)
    requires var from := if start < 0 then |s| + start else start;
      from >= 0 || |needle| == 0 || |needle| > |s| - from
    ensures start >= 0 ==> FoundFrom(s, start, needle, pos)
    ensures start < 0 ==> FoundFrom(s, |s| + start, needle, pos)
    ensures start == -1 && |s| > 0 ==> pos == if needle == [s[|s| - 1]] then |s| - 1 else -1
    ensures comparisons <= 2 * |s| + 3 * |needle|
  {
    hide OccursAt, IsLeftmost, FoundFrom, IsTable;
    var from := if start < 0 then |s| + start else start;
    var len := |s| - from;
    pos, comparisons := -1, 0;
    if len >= |needle| && |needle| > 0 {
      var table := new int[|needle| + 1];
      var built := BuildTable(needle, table);
      var found, tried := Find(s[from..], needle, table);
      comparisons := built + tried;
      FoundInRest(s, from, needle, found);
      pos := if found >= 0 then found + from else found;
    } else {
      NotFoundIn(s, from, needle);
    }
    if start == -1 && |s| > 0 { LastCharacter(s, needle, pos); }
  }

  /** The leftmost occurrence at or after `from`, or -1 when there is none. */
  ghost predicate FoundFrom<T>(s: seq<T>, from: int, needle: seq<T>, pos: int) {
    && (pos == -1 || (from <= pos && |needle| > 0 && OccursAt(needle, s, pos)))
    && (|needle| > 0 ==> forall k :: from <= k && OccursAt(needle, s, k) ==> pos != -1 && pos <= k)
  }

  lemma FoundInRest<T>(s: seq<T>, from: nat, needle: seq<T>, found: int)
    requires from <= |s| && |needle| > 0 && IsLeftmost(needle, s[from..], found)
    ensures FoundFrom(s, from, needle, if found >= 0 then found + from else found)
  {
    forall k | from <= k ensures OccursAt(needle, s, k) <==> OccursAt(needle, s[from..], k - from) {
      if k + |needle| <= |s| { assert s[k..k + |needle|] == s[from..][k - from..k - from + |needle|]; }
    }
  }

  lemma NotFoundIn<T>(s: seq<T>, from: int, needle: seq<T>)
    requires |needle| == 0 || |needle| > |s| - from
    ensures FoundFrom(s, from, needle, -1)
  {
  }

  lemma LastCharacter<T>(s: seq<T>, needle: seq<T>, pos: int)
    requires |s| > 0 && FoundFrom(s, |s| - 1, needle, pos)
    ensures pos == if needle == [s[|s| - 1]] then |s| - 1 else -1
  {
    var n := |s| - 1;
    assert s[n..n + 1] == [s[n]];
    if needle == [s[n]] { assert OccursAt(needle, s, n); }
  }

  /** Counting from the end or from the front finds the same. */
  method FromEitherEnd<T(==)>(s: seq<T>, k: int, needle: seq<T>) returns (pos: int, pos': int)
    requires 0 < k <= |s|
    ensures pos == pos' && FoundFrom(s, |s| - k, needle, pos)
  {
    ghost var c;
    pos, c := StringFind(s, -k, needle);
    pos', c := StringFind(s, |s| - k, needle);
  }

  /** Finds the rightmost occurrence that lies wholly at or before `start`, or -1 exactly when there is none. A negative
      start counts from the end, -1 being the last character. The position after the last character is that of the
      terminator, which the buffer holds too and the search takes for a character; a start behind it is read only if
      the needle could lie before it. */
  method StringFindR<T(==)>(s: seq<T>, terminator: T, start: int, needle: seq<T>) returns (pos: int, ghost comparisons: nat)
    requires var to := if start < 0 then |s| + start else start;
      to <= |s| || |needle| == 0 || |needle| > to + 1
    ensures start >= 0 ==> FoundUpTo(s + [terminator], start, needle, pos)
    ensures start < 0 ==> FoundUpTo(s + [terminator], |s| + start, needle, pos)
    ensures start == 0 && |s| > 0 ==> pos == if needle == [s[0]] then 0 else -1
    ensures start == -|s| && |s| > 0 ==> pos == if needle == [s[0]] then 0 else -1
    ensures comparisons <= 2 * (|s| + 1) + 3 * |needle|
  {
    var d := s + [terminator];
    var len := (if start < 0 then |s| + start else start) + 1;
    pos, comparisons := -1, 0;
    if len >= |needle| && |needle| > 0 {
      var table := new int[|needle| + 1];
      var built := BuildTableR(needle, table);
      var found, tried := FindR(d[..len], needle, table);
      comparisons := built + tried;
      forall k | k + |needle| <= len ensures OccursAt(needle, d, k) <==> OccursAt(needle, d[..len], k) {
        if 0 <= k { assert d[k..k + |needle|] == d[..len][k..k + |needle|]; }
      }
      pos := found;
    }
    if len == 1 && |s| > 0 { FirstCharacter(d, needle, pos); }
  }

  /** The rightmost occurrence that ends at `to` or before, or -1 when there is none. */
  ghost predicate FoundUpTo<T>(d: seq<T>, to: int, needle: seq<T>, pos: int) {
    && (pos == -1 || (0 <= pos && |needle| > 0 && OccursAt(needle, d, pos) && pos + |needle| - 1 <= to))
    && (|needle| > 0 ==> forall k :: OccursAt(needle, d, k) && k + |needle| - 1 <= to ==> k <= pos)
  }

  lemma FirstCharacter<T>(d: seq<T>, needle: seq<T>, pos: int)
    requires |d| > 0 && FoundUpTo(d, 0, needle, pos)
    ensures pos == if needle == [d[0]] then 0 else -1
  {
    assert d[0..1] == [d[0]];
    if needle == [d[0]] { assert OccursAt(needle, d, 0); }
  }

  method FromEitherEndR<T(==)>(s: seq<T>, terminator: T, k: int, needle: seq<T>) returns (pos: int, pos': int)
    requires 0 < k <= |s|
    ensures pos == pos' && FoundUpTo(s + [terminator], |s| - k, needle, pos)
  {
    ghost var c;
    pos, c := StringFindR(s, terminator, -k, needle);
    pos', c := StringFindR(s, terminator, |s| - k, needle);
  }

  /** With the start inside the string, or a needle that does not hold the terminator, that is an occurrence in the
      string. */
  lemma TerminatorApart<T>(s: seq<T>, terminator: T, needle: seq<T>, k: int)
    requires |needle| > 0 && (k + |needle| <= |s| || terminator !in needle)
    ensures OccursAt(needle, s + [terminator], k) <==> OccursAt(needle, s, k)
  {
    var d := s + [terminator];
    if 0 <= k && k + |needle| <= |s| {
      assert d[k..k + |needle|] == s[k..k + |needle|];
    } else if 0 <= k && k + |needle| == |d| {
      assert d[k..k + |needle|][|needle| - 1] == terminator;
    }
  }
}
