/** The bottom-up merge sort of uthash.h and utlist.h on sequences: what it returns for any comparison, and that it
    sorts stably when the comparison is a total preorder. */
module MergeSort {
  import opened Common

  /** Merges two runs; the first run goes first on a tie. */
  function Merge<T>(cmp: (T, T) -> int, a: seq<T>, b: seq<T>): (r: seq<T>)
    ensures |r| == |a| + |b|
  {
    if |a| == 0 then b
    else if |b| == 0 then a
    else if cmp(a[0], b[0]) <= 0 then [a[0]] + Merge(cmp, a[1..], b)
    else [b[0]] + Merge(cmp, a, b[1..])
  }

  /** One pass: merges neighbouring runs of length `k` two by two. */
  function Pass<T>(cmp: (T, T) -> int, s: seq<T>, k: nat): (r: seq<T>)
    requires k > 0
    ensures |r| == |s|
  {
    if |s| == 0 then []
    else
      var m, e := Min(k, |s|), Min(2 * k, |s|);
      Merge(cmp, s[..m], s[m..e]) + Pass(cmp, s[e..], k)
  }

  /** Passes with doubling run lengths, up to and including the first that makes at most one merge. */
  function SortFrom<T>(cmp: (T, T) -> int, s: seq<T>, k: nat): (r: seq<T>)
    requires k > 0
    ensures |r| == |s|
    decreases if |s| > k then |s| - k else 0
  {
    if |s| <= 2 * k then Pass(cmp, s, k) else SortFrom(cmp, Pass(cmp, s, k), 2 * k)
  }

  // ---------------------------------------------------------------- any comparison: a permutation

  lemma {:induction false} MergePermutes<T>(cmp: (T, T) -> int, a: seq<T>, b: seq<T>)
    ensures multiset(Merge(cmp, a, b)) == multiset(a) + multiset(b)
    decreases |a| + |b|
  {
    if |a| > 0 && |b| > 0 {
      if cmp(a[0], b[0]) <= 0 {
        MergePermutes(cmp, a[1..], b);
        assert a == [a[0]] + a[1..];
      } else {
        MergePermutes(cmp, a, b[1..]);
        assert b == [b[0]] + b[1..];
      }
    }
  }

  /** A pass merges the first two runs and goes on with what follows them. */
  lemma FirstPair<T>(cmp: (T, T) -> int, s: seq<T>, k: nat) returns (a: seq<T>, b: seq<T>, rest: seq<T>)
    requires k > 0 && |s| > 0
    ensures a == s[..Min(k, |s|)] && b == s[Min(k, |s|)..Min(2 * k, |s|)] && rest == s[Min(2 * k, |s|)..]
    ensures s == a + b + rest && |rest| < |s| && |a| + |b| == Min(2 * k, |s|)
    ensures Pass(cmp, s, k) == Merge(cmp, a, b) + Pass(cmp, rest, k)
  {
    hide Merge;
    a, b, rest := s[..Min(k, |s|)], s[Min(k, |s|)..Min(2 * k, |s|)], s[Min(2 * k, |s|)..];
  }

  lemma {:induction false} PassPermutes<T>(cmp: (T, T) -> int, s: seq<T>, k: nat)
    requires k > 0
    ensures multiset(Pass(cmp, s, k)) == multiset(s)
    decreases |s|
  {
    if |s| > 0 {
      var a, b, rest := FirstPair(cmp, s, k);
      MergePermutes(cmp, a, b);
      PassPermutes(cmp, rest, k);
    }
  }

  lemma {:induction false} SortPermutes<T>(cmp: (T, T) -> int, s: seq<T>, k: nat)
    requires k > 0
    ensures multiset(SortFrom(cmp, s, k)) == multiset(s)
    decreases if |s| > k then |s| - k else 0
  {
    PassPermutes(cmp, s, k);
    if |s| > 2 * k { SortPermutes(cmp, Pass(cmp, s, k), 2 * k); }
  }

  // ---------------------------------------------------------------- total preorders: sorted and stable

  /** `cmp(x, y) <= 0` is total and transitive on the elements of `s`. */
  ghost predicate Preorder<T>(cmp: (T, T) -> int, s: seq<T>) {
    && (forall x, y | x in s && y in s :: cmp(x, y) <= 0 || cmp(y, x) <= 0)
    && (forall x, y, z | x in s && y in s && z in s :: cmp(x, y) <= 0 && cmp(y, z) <= 0 ==> cmp(x, z) <= 0)
  }

  ghost predicate Sorted<T>(cmp: (T, T) -> int, s: seq<T>) {
    forall i, j :: 0 <= i < j < |s| ==> cmp(s[i], s[j]) <= 0
  }

  ghost predicate Tied<T>(cmp: (T, T) -> int, x: T, y: T) {
    cmp(x, y) <= 0 && cmp(y, x) <= 0
  }

  /** The elements that tie with `x`, in order. A sort is stable when it leaves this sequence alone for every `x`. */
  ghost function Ties<T>(cmp: (T, T) -> int, s: seq<T>, x: T): seq<T> {
    if |s| == 0 then []
    else (if Tied(cmp, s[0], x) then [s[0]] else []) + Ties(cmp, s[1..], x)
  }

  ghost function IfTied<T>(cmp: (T, T) -> int, y: T, x: T): seq<T> {
    if Tied(cmp, y, x) then [y] else []
  }

  lemma TiesCons<T>(cmp: (T, T) -> int, y: T, s: seq<T>, x: T)
    ensures Ties(cmp, [y] + s, x) == IfTied(cmp, y, x) + Ties(cmp, s, x)
  {
    assert ([y] + s)[1..] == s;
  }

  lemma NothingTies<T>(cmp: (T, T) -> int, x: T)
    ensures Ties(cmp, [], x) == []
  {
  }

  lemma {:induction false} TiesConcat<T>(cmp: (T, T) -> int, s: seq<T>, t: seq<T>, x: T)
    ensures Ties(cmp, s + t, x) == Ties(cmp, s, x) + Ties(cmp, t, x)
    decreases |s|
  {
    hide Ties, IfTied;
    if |s| == 0 {
      NothingTies(cmp, x);
      assert s == [] && s + t == t;
    } else {
      var y, r := s[0], s[1..];
      assert s == [y] + r && s + t == [y] + (r + t);
      TiesCons(cmp, y, r + t, x);
      TiesCons(cmp, y, r, x);
      TiesConcat(cmp, r, t, x);
    }
  }

  lemma {:induction false} NoTies<T>(cmp: (T, T) -> int, s: seq<T>, x: T)
    requires forall y <- s :: !Tied(cmp, y, x)
    ensures Ties(cmp, s, x) == []
    decreases |s|
  {
    if |s| > 0 { NoTies(cmp, s[1..], x); }
  }

  /** A preorder stays one on any choice of the elements. */
  lemma PreorderSub<T>(cmp: (T, T) -> int, s: seq<T>, t: seq<T>)
    requires Preorder(cmp, s) && forall x <- t :: x in s
    ensures Preorder(cmp, t)
  {
  }

  lemma SortedTail<T>(cmp: (T, T) -> int, s: seq<T>)
    requires Sorted(cmp, s) && |s| > 0
    ensures Sorted(cmp, s[1..]) && (|s| > 1 ==> cmp(s[0], s[1]) <= 0)
  {
  }

  lemma SortedCons<T>(cmp: (T, T) -> int, x: T, s: seq<T>)
    requires Sorted(cmp, s) && forall y <- s :: cmp(x, y) <= 0
    ensures Sorted(cmp, [x] + s)
  {
  }

  lemma EitherFirst<T>(cmp: (T, T) -> int, x: T, y: T, s: seq<T>)
    requires Preorder(cmp, s) && x in s && y in s
    ensures cmp(x, y) <= 0 || cmp(y, x) <= 0
  {
  }

  lemma {:induction false} MergeSorts<T>(cmp: (T, T) -> int, a: seq<T>, b: seq<T>)
    requires Preorder(cmp, a + b) && Sorted(cmp, a) && Sorted(cmp, b)
    ensures Sorted(cmp, Merge(cmp, a, b))
    decreases |a| + |b|
  {
    hide Preorder, Sorted;
    if |a| > 0 && |b| > 0 {
      assert a == [a[0]] + a[1..] && b == [b[0]] + b[1..];
      if cmp(a[0], b[0]) <= 0 {
        SortedTail(cmp, a);
        FirstIsLeast(cmp, a[0], a[1..], b, a + b);
        PreorderSub(cmp, a + b, a[1..] + b);
        MergeSorts(cmp, a[1..], b);
        SortedCons(cmp, a[0], Merge(cmp, a[1..], b));
      } else {
        SortedTail(cmp, b);
        EitherFirst(cmp, a[0], b[0], a + b);
        FirstIsLeast(cmp, b[0], a, b[1..], a + b);
        PreorderSub(cmp, a + b, a + b[1..]);
        MergeSorts(cmp, a, b[1..]);
        SortedCons(cmp, b[0], Merge(cmp, a, b[1..]));
      }
    }
  }

  /** An element that comes before both first elements comes before everything merged. */
  lemma FirstIsLeast<T>(cmp: (T, T) -> int, x: T, a: seq<T>, b: seq<T>, all: seq<T>)
    requires Preorder(cmp, all) && x in all && (forall y <- a + b :: y in all)
    requires |a| > 0 ==> cmp(x, a[0]) <= 0
    requires |b| > 0 ==> cmp(x, b[0]) <= 0
    requires Sorted(cmp, a) && Sorted(cmp, b)
    ensures forall y <- Merge(cmp, a, b) :: cmp(x, y) <= 0
  {
    MergePermutes(cmp, a, b);
    forall y <- Merge(cmp, a, b) ensures cmp(x, y) <= 0 {
      assert y in multiset(Merge(cmp, a, b));
      if y in multiset(a) {
        var i :| 0 <= i < |a| && a[i] == y;
        assert a[0] in a + b && y in a + b;
        assert i > 0 ==> cmp(a[0], a[i]) <= 0;
      } else {
        var i :| 0 <= i < |b| && b[i] == y;
        assert b[0] in a + b && y in a + b;
        assert i > 0 ==> cmp(b[0], b[i]) <= 0;
      }
    }
  }

  lemma {:induction false} MergeIsStable<T>(cmp: (T, T) -> int, a: seq<T>, b: seq<T>, x: T)
    requires Preorder(cmp, a + b + [x]) && Sorted(cmp, a)
    ensures Ties(cmp, Merge(cmp, a, b), x) == Ties(cmp, a, x) + Ties(cmp, b, x)
    decreases |a| + |b|
  {
    hide Preorder, Tied, Ties, Sorted;
    NothingTies(cmp, x);
    if |a| > 0 && |b| > 0 {
      assert a == [a[0]] + a[1..] && b == [b[0]] + b[1..];
      TiesCons(cmp, a[0], a[1..], x);
      TiesCons(cmp, b[0], b[1..], x);
      if cmp(a[0], b[0]) <= 0 {
        SortedTail(cmp, a);
        PreorderSub(cmp, a + b + [x], a[1..] + b + [x]);
        MergeIsStable(cmp, a[1..], b, x);
        TiesCons(cmp, a[0], Merge(cmp, a[1..], b), x);
      } else {
        PreorderSub(cmp, a + b + [x], a + b[1..] + [x]);
        MergeIsStable(cmp, a, b[1..], x);
        TiesCons(cmp, b[0], Merge(cmp, a, b[1..]), x);
        if Tied(cmp, b[0], x) { RunAbove(cmp, a, b, x); }
      }
    }
  }

  /** When the second run goes first, nothing of the first run ties with its first element. */
  lemma RunAbove<T>(cmp: (T, T) -> int, a: seq<T>, b: seq<T>, x: T)
    requires Preorder(cmp, a + b + [x]) && Sorted(cmp, a)
    requires |a| > 0 && |b| > 0 && cmp(a[0], b[0]) > 0 && Tied(cmp, b[0], x)
    ensures Ties(cmp, a, x) == []
  {
    var all := a + b + [x];
    assert b[0] in all && x in all && a[0] in all;
    forall y <- a ensures !Tied(cmp, y, x) {
      var i :| 0 <= i < |a| && a[i] == y;
      assert y in all;
      assert i > 0 ==> cmp(a[0], a[i]) <= 0;
    }
    NoTies(cmp, a, x);
  }

  /** Consecutive runs of length `k` are sorted. */
  ghost predicate Runs<T>(cmp: (T, T) -> int, s: seq<T>, k: nat)
    requires k > 0
  {
    |s| > 0 ==> Sorted(cmp, s[..Min(k, |s|)]) && Runs(cmp, s[Min(k, |s|)..], k)
  }

  lemma {:induction false} SingleRuns<T>(cmp: (T, T) -> int, s: seq<T>)
    ensures Runs(cmp, s, 1)
    decreases |s|
  {
    if |s| > 0 { SingleRuns(cmp, s[1..]); }
  }

  lemma {:induction false} PassDoublesRuns<T>(cmp: (T, T) -> int, s: seq<T>, k: nat)
    requires k > 0 && Preorder(cmp, s) && Runs(cmp, s, k)
    ensures Runs(cmp, Pass(cmp, s, k), 2 * k)
    decreases |s|
  {
    if |s| > 0 {
      var m, e := Min(k, |s|), Min(2 * k, |s|);
      var a, b, rest := s[..m], s[m..e], s[e..];
      RunsSplit(cmp, s, k);
      PreorderSub(cmp, s, a + b);
      PreorderSub(cmp, s, rest);
      MergeSorts(cmp, a, b);
      PassDoublesRuns(cmp, rest, k);
      var r := Pass(cmp, s, k);
      assert r[..e] == Merge(cmp, a, b) && r[e..] == Pass(cmp, rest, k);
    }
  }

  lemma NoRun<T>(cmp: (T, T) -> int, s: seq<T>)
    requires |s| == 0
    ensures Sorted(cmp, s)
  {
  }

  lemma FirstRun<T>(cmp: (T, T) -> int, s: seq<T>, k: nat, m: nat)
    requires k > 0 && |s| > 0 && Runs(cmp, s, k) && m == Min(k, |s|)
    ensures Sorted(cmp, s[..m]) && Runs(cmp, s[m..], k)
  {
    hide Sorted;
  }

  lemma TwoRuns(k: nat, n: nat)
    ensures Min(2 * k, n) == Min(k, n) + Min(k, n - Min(k, n)) <= n
  {
  }

  lemma RunsSplit<T>(cmp: (T, T) -> int, s: seq<T>, k: nat)
    requires k > 0 && |s| > 0 && Runs(cmp, s, k)
    ensures var m, e := Min(k, |s|), Min(2 * k, |s|);
      m <= e <= |s| && Sorted(cmp, s[..m]) && Sorted(cmp, s[m..e]) && Runs(cmp, s[e..], k)
  {
    TwoRuns(k, |s|);
    SplitAt(cmp, s, k, Min(k, |s|), Min(2 * k, |s|));
  }

  lemma SplitAt<T>(cmp: (T, T) -> int, s: seq<T>, k: nat, m: nat, e: nat)
    requires k > 0 && |s| > 0 && Runs(cmp, s, k) && m == Min(k, |s|) && m <= e <= |s| && e - m == Min(k, |s| - m)
    ensures Sorted(cmp, s[..m]) && Sorted(cmp, s[m..e]) && Runs(cmp, s[e..], k)
  {
    hide Sorted, Runs, Min;
    FirstRun(cmp, s, k, m);
    DropThenTake(s, m, e);
    if m < |s| {
      FirstRun(cmp, s[m..], k, e - m);
    } else {
      NoRun(cmp, s[m..e]);
      NoRuns(cmp, s[e..], k);
    }
  }

  lemma DropThenTake<T>(s: seq<T>, m: nat, e: nat)
    requires m <= e <= |s|
    ensures s[m..][..e - m] == s[m..e] && s[m..][e - m..] == s[e..]
  {
  }

  lemma NoRuns<T>(cmp: (T, T) -> int, s: seq<T>, k: nat)
    requires k > 0 && |s| == 0
    ensures Runs(cmp, s, k)
  {
  }

  lemma NothingToPass<T>(cmp: (T, T) -> int, s: seq<T>, k: nat)
    requires k > 0 && |s| == 0
    ensures Pass(cmp, s, k) == s
  {
  }

  lemma {:induction false} PassIsStable<T>(cmp: (T, T) -> int, s: seq<T>, k: nat, x: T)
    requires k > 0 && Preorder(cmp, s + [x]) && Runs(cmp, s, k)
    ensures Ties(cmp, Pass(cmp, s, k), x) == Ties(cmp, s, x)
    decreases |s|
  {
    hide Preorder, Sorted, Runs, Merge, Pass, Ties, Min;
    if |s| > 0 {
      var a, b, rest := FirstPair(cmp, s, k);
      RunsSplit(cmp, s, k);
      PreorderSub(cmp, s + [x], a + b + [x]);
      PreorderSub(cmp, s + [x], rest + [x]);
      MergeIsStable(cmp, a, b, x);
      PassIsStable(cmp, rest, k, x);
      TiesConcat(cmp, Merge(cmp, a, b), Pass(cmp, rest, k), x);
      TiesConcat(cmp, a, b, x);
      TiesConcat(cmp, a + b, rest, x);
    } else {
      NothingToPass(cmp, s, k);
    }
  }

  lemma {:induction false} SortFromSorts<T>(cmp: (T, T) -> int, s: seq<T>, k: nat)
    requires k > 0 && Preorder(cmp, s) && Runs(cmp, s, k)
    ensures Sorted(cmp, SortFrom(cmp, s, k))
    decreases if |s| > k then |s| - k else 0
  {
    PassDoublesRuns(cmp, s, k);
    var t := Pass(cmp, s, k);
    if |s| <= 2 * k {
      assert t[..|t|] == t;
      assert Min(2 * k, |t|) == |t|;
    } else {
      PassPermutes(cmp, s, k);
      SameMembers(t, s);
      PreorderSub(cmp, s, t);
      SortFromSorts(cmp, t, 2 * k);
    }
  }

  lemma {:induction false} SortFromIsStable<T>(cmp: (T, T) -> int, s: seq<T>, k: nat, x: T)
    requires k > 0 && Preorder(cmp, s + [x]) && Runs(cmp, s, k)
    ensures Ties(cmp, SortFrom(cmp, s, k), x) == Ties(cmp, s, x)
    decreases if |s| > k then |s| - k else 0
  {
    PassIsStable(cmp, s, k, x);
    if |s| > 2 * k {
      var t := Pass(cmp, s, k);
      PassPermutes(cmp, s, k);
      SameMembers(t, s);
      PreorderSub(cmp, s + [x], s);
      PreorderSub(cmp, s + [x], t + [x]);
      PassDoublesRuns(cmp, s, k);
      SortFromIsStable(cmp, t, 2 * k, x);
    }
  }

  lemma SameMembers<T>(s: seq<T>, t: seq<T>)
    requires multiset(s) == multiset(t)
    ensures (forall x <- s :: x in t) && (forall x <- t :: x in s)
    ensures |s| == |t|
  {
    forall x <- s ensures x in t { assert x in multiset(s); }
    forall x <- t ensures x in s { assert x in multiset(t); }
    assert |s| == |multiset(s)| && |t| == |multiset(t)|;
  }

  /** The sort from runs of one: a permutation for any comparison; sorted and stable for a total preorder. */
  lemma SortSpec<T>(cmp: (T, T) -> int, s: seq<T>)
    ensures multiset(SortFrom(cmp, s, 1)) == multiset(s)
    ensures Preorder(cmp, s) ==>
              Sorted(cmp, SortFrom(cmp, s, 1))
              && forall x <- s :: Ties(cmp, SortFrom(cmp, s, 1), x) == Ties(cmp, s, x)
  {
    SortPermutes(cmp, s, 1);
    SingleRuns(cmp, s);
    if Preorder(cmp, s) {
      SortFromSorts(cmp, s, 1);
      forall x <- s ensures Ties(cmp, SortFrom(cmp, s, 1), x) == Ties(cmp, s, x) {
        PreorderSub(cmp, s, s + [x]);
        SortFromIsStable(cmp, s, 1, x);
      }
    }
  }
}
