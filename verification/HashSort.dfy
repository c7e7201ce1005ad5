/** The merge sort of uthash.h in place: it relinks the application-order list of the elements and nothing else. */
module HashSort {
  import opened Common
  import opened HashLinks
  import opened MergeSort

  /** The output list so far: well linked, except that the last element still carries an old `next`. */
  ghost predicate Building<K, V>(list: Elem?<K, V>, tail: Elem?<K, V>, o: seq<Elem<K, V>>)
    reads SetOf(o)
  {
    && Distinct(o)
    && list == At(o, 0) && tail == At(o, |o| - 1)
    && (forall r {:trigger o[r].next} :: 0 <= r < |o| - 1 ==> o[r].next == o[r + 1])
    && (forall r {:trigger o[r].prev} :: 0 <= r < |o| ==> o[r].prev == At(o, r - 1))
  }

  /** From index `i` up to `m` the elements of `l` still carry the links of `l`, and none of them is in the output. */
  ghost predicate Waiting<K, V>(l: seq<Elem<K, V>>, i: nat, m: nat, o: seq<Elem<K, V>>)
    requires m <= |l|
    reads SetOf(l)
  {
    && (forall r {:trigger l[r].next} :: i <= r < m ==> l[r].next == At(l, r + 1))
    && (forall r {:trigger l[r]} :: i <= r < m ==> l[r] !in SetOf(o))
  }

  /** Hangs one element behind the output list. */
  method Emit<K, V>(e: Elem<K, V>, list: Elem?<K, V>, tail: Elem?<K, V>, ghost o: seq<Elem<K, V>>)
    returns (list': Elem?<K, V>, tail': Elem?<K, V>)
    requires Building(list, tail, o) && e !in o
    modifies e`prev, (if tail == null then {} else {tail})`next
    ensures Building(list', tail', o + [e])
  {
    list' := list;
    if tail != null { tail.next := e; } else { list' := e; }
    e.prev := tail;
    tail' := e;
  }

  /** Hangs the next element of the first run (`l[i..m]`) or of the second (from `j`) behind the output list. */
  method EmitNext<K, V>(e: Elem<K, V>, list: Elem?<K, V>, tail: Elem?<K, V>, ghost l: seq<Elem<K, V>>,
                        ghost i: nat, ghost m: nat, ghost j: nat, ghost first: bool, ghost o: seq<Elem<K, V>>)
    returns (list': Elem?<K, V>, tail': Elem?<K, V>)
    requires Distinct(l) && i <= m <= j <= |l| && Building(list, tail, o) && SetOf(o) <= SetOf(l)
    requires Waiting(l, i, m, o) && Waiting(l, j, |l|, o)
    requires if first then i < m && e == l[i] else j < |l| && e == l[j]
    modifies SetOf(l)`next, SetOf(l)`prev
    ensures Building(list', tail', o + [e]) && SetOf(o + [e]) <= SetOf(l)
    ensures Waiting(l, if first then i + 1 else i, m, o + [e]) && Waiting(l, if first then j else j + 1, |l|, o + [e])
  {
    LastOfOutput(list, tail, o);
    list', tail' := Emit(e, list, tail, o);
  }

  lemma SplitWaiting<K, V>(l: seq<Elem<K, V>>, i: nat, m: nat, o: seq<Elem<K, V>>)
    requires i <= m <= |l| && Waiting(l, i, |l|, o)
    ensures Waiting(l, i, m, o) && Waiting(l, m, |l|, o)
  {
  }

  lemma FirstWaiting<K, V>(l: seq<Elem<K, V>>, i: nat, m: nat, o: seq<Elem<K, V>>)
    requires m <= |l| && Waiting(l, i, m, o)
    ensures i < m ==> l[i].next == At(l, i + 1)
  {
  }

  lemma LastOfOutput<K, V>(list: Elem?<K, V>, tail: Elem?<K, V>, o: seq<Elem<K, V>>)
    requires Building(list, tail, o)
    ensures tail == null <==> |o| == 0
    ensures tail != null ==> tail in o
  {
  }

  /** Walks over at most `k` elements from `p`: how many there were, and the element after them. */
  method SkipRun<K, V>(p: Elem<K, V>, k: nat, ghost l: seq<Elem<K, V>>, ghost i: nat, ghost o: seq<Elem<K, V>>)
    returns (q: Elem?<K, V>, psize: nat)
    requires k > 0 && i < |l| && p == l[i]
    requires Waiting(l, i, |l|, o)
    ensures psize == Min(k, |l| - i) && q == At(l, i + psize)
  {
    q, psize := p, 0;
    var n := 0;
    while n < k
      invariant 0 <= n <= k && psize == n && i + n < |l| && q == l[i + n]
    {
      psize := psize + 1;
      q := q.next;
      if q == null { break; }
      n := n + 1;
    }
  }

  /** What a merge has still to put out when the runs are down to `l[i..m]` and `l[j..e]`. */
  ghost function Rest<T>(cmp: (T, T) -> int, l: seq<T>, i: nat, m: nat, j: nat, e: nat): seq<T>
    requires i <= m <= j <= e <= |l|
  {
    Merge(cmp, l[i..m], l[j..e])
  }

  lemma MergeStep<T>(cmp: (T, T) -> int, l: seq<T>, i: nat, m: nat, j: nat, e: nat)
    requires i <= m <= j <= e <= |l|
    ensures i == m && j == e ==> Rest(cmp, l, i, m, j, e) == []
    ensures i < m && (j == e || cmp(l[i], l[j]) <= 0) ==>
              Rest(cmp, l, i, m, j, e) == [l[i]] + Rest(cmp, l, i + 1, m, j, e)
    ensures j < e && (i == m || cmp(l[i], l[j]) > 0) ==>
              Rest(cmp, l, i, m, j, e) == [l[j]] + Rest(cmp, l, i, m, j + 1, e)
  {
    if i < m { assert l[i..m][1..] == l[i + 1..m]; }
    if j < e { assert l[j..e][1..] == l[j + 1..e]; }
  }

  /** Merges the run of `psize0` elements at `p0` and the run of at most `k` at `q0` behind the output list. */
  method MergeRuns<K, V>(cmp: (Elem<K, V>, Elem<K, V>) -> int, p0: Elem<K, V>, q0: Elem?<K, V>, psize0: nat, k: nat,
                         list0: Elem?<K, V>, tail0: Elem?<K, V>,
                         ghost l: seq<Elem<K, V>>, ghost i0: nat, ghost o0: seq<Elem<K, V>>)
    returns (list: Elem?<K, V>, tail: Elem?<K, V>, q: Elem?<K, V>, ghost o: seq<Elem<K, V>>)
    requires k > 0 && Distinct(l) && i0 < |l| && psize0 == Min(k, |l| - i0)
    requires p0 == l[i0] && q0 == At(l, i0 + psize0)
    requires Building(list0, tail0, o0) && Waiting(l, i0, |l|, o0) && SetOf(o0) <= SetOf(l)
    modifies SetOf(l)`next, SetOf(l)`prev
    ensures var m, e := i0 + psize0, Min(i0 + 2 * k, |l|);
      && o == o0 + Rest(cmp, l, i0, m, m, e) && q == At(l, e)
      && Building(list, tail, o) && Waiting(l, e, |l|, o) && SetOf(o) <= SetOf(l)
  {
    hide Building, Rest, Waiting, Distinct;
    var p: Elem?, psize, qsize := p0, psize0, k;
    list, tail, q, o := list0, tail0, q0, o0;
    ghost var m, e := i0 + psize0, Min(i0 + 2 * k, |l|);
    ghost var i, j := i0, m;
    SplitWaiting(l, i0, m, o0);
    assert e == Min(m + k, |l|);
    ghost var goal := o0 + Rest(cmp, l, i0, m, m, e);
    while psize != 0 || (qsize != 0 && q != null)
      invariant i0 <= i <= m <= j <= e && psize == m - i && qsize == m + k - j
      invariant q == At(l, j) && (i < m ==> p == l[i])
      invariant Building(list, tail, o) && Waiting(l, i, m, o) && Waiting(l, j, |l|, o) && SetOf(o) <= SetOf(l)
      invariant o + Rest(cmp, l, i, m, j, e) == goal
      decreases m - i + e - j
    {
      MergeStep(cmp, l, i, m, j, e);
      FirstWaiting(l, i, m, o);
      FirstWaiting(l, j, |l|, o);
      var x: Elem?;
      ghost var first, i', j' := false, i, j;
      if psize == 0 {
        x, q, qsize := q, q.next, qsize - 1;
        j' := j + 1;
      } else if qsize == 0 || q == null {
        x, p, psize := p, p.next, psize - 1;
        i', first := i + 1, true;
      } else if cmp(p, q) <= 0 {
        x, p, psize := p, p.next, psize - 1;
        i', first := i + 1, true;
      } else {
        x, q, qsize := q, q.next, qsize - 1;
        j' := j + 1;
      }
      list, tail := EmitNext(x, list, tail, l, i, m, j, first, o);
      assert o + [x] + Rest(cmp, l, i', m, j', e) == o + ([x] + Rest(cmp, l, i', m, j', e));
      i, j, o := i', j', o + [x];
    }
    MergeStep(cmp, l, i, m, j, e);
  }

  lemma StartPass<K, V>(p0: Elem<K, V>, l: seq<Elem<K, V>>)
    requires Listed(p0, At(l, |l| - 1), l)
    ensures p0 == At(l, 0) && Waiting(l, 0, |l|, []) && Building<K, V>(null, null, []) && SetOf<Elem<K, V>>([]) <= SetOf(l)
  {
  }

  /** A pass from position `i` merges the two runs there. */
  lemma PassStep<T>(cmp: (T, T) -> int, l: seq<T>, i: nat, k: nat)
    requires k > 0 && i < |l|
    ensures var m, e := i + Min(k, |l| - i), Min(i + 2 * k, |l|);
      Pass(cmp, l[i..], k) == Rest(cmp, l, i, m, m, e) + Pass(cmp, l[e..], k)
  {
    hide Merge, Pass;
    var m, e := i + Min(k, |l| - i), Min(i + 2 * k, |l|);
    var a, b, rest := FirstPair(cmp, l[i..], k);
    assert a == l[i..m] && b == l[m..e] && rest == l[e..];
  }

  /** The output of a whole pass, closed off, is a list. */
  method CloseList<K, V>(list: Elem?<K, V>, tail: Elem?<K, V>, ghost o: seq<Elem<K, V>>, ghost l: seq<Elem<K, V>>)
    requires Building(list, tail, o) && SetOf(o) <= SetOf(l)
    modifies SetOf(l)`next
    ensures Listed(list, tail, o)
  {
    LastOfOutput(list, tail, o);
    if tail != null { tail.next := null; }
  }

  /** One merge of a pass: the two runs at `p0`, the length of the first found by walking over it. */
  method MergePair<K, V>(cmp: (Elem<K, V>, Elem<K, V>) -> int, p0: Elem<K, V>, k: nat, list0: Elem?<K, V>,
                         tail0: Elem?<K, V>, ghost l: seq<Elem<K, V>>, ghost i: nat, ghost o0: seq<Elem<K, V>>)
    returns (list: Elem?<K, V>, tail: Elem?<K, V>, p: Elem?<K, V>, ghost o: seq<Elem<K, V>>)
    requires k > 0 && Distinct(l) && i < |l| && p0 == l[i]
    requires Building(list0, tail0, o0) && Waiting(l, i, |l|, o0) && SetOf(o0) <= SetOf(l)
    modifies SetOf(l)`next, SetOf(l)`prev
    ensures var e := Min(i + 2 * k, |l|);
      && o + Pass(cmp, l[e..], k) == o0 + Pass(cmp, l[i..], k) && p == At(l, e)
      && Building(list, tail, o) && Waiting(l, e, |l|, o) && SetOf(o) <= SetOf(l)
  {
    hide Rest, Pass, Building, Waiting, Distinct;
    PassStep(cmp, l, i, k);
    var q, psize := SkipRun(p0, k, l, i, o0);
    list, tail, p, o := MergeRuns(cmp, p0, q, psize, k, list0, tail0, l, i, o0);
  }

  /** One pass over the list from `p0`. Returns the new ends and the number of merges. */
  method PassOver<K, V>(cmp: (Elem<K, V>, Elem<K, V>) -> int, p0: Elem<K, V>, k: nat, ghost l: seq<Elem<K, V>>)
    returns (list: Elem?<K, V>, tail: Elem?<K, V>, nmerges: nat)
    requires k > 0 && |l| > 0 && Distinct(l) && Listed(p0, At(l, |l| - 1), l)
    modifies SetOf(l)`next, SetOf(l)`prev
    ensures Listed(list, tail, Pass(cmp, l, k)) && (nmerges <= 1 <==> |l| <= 2 * k)
  {
    hide Pass, Building, Waiting, SetOf, Distinct, Listed;
    var p: Elem? := p0;
    list, tail, nmerges := null, null, 0;
    ghost var i, o := 0, [];
    assert l[0..] == l;
    StartPass(p0, l);
    while p != null
      invariant 0 <= i <= |l| && p == At(l, i) && (nmerges == 0 ==> i == 0) && (nmerges == 1 ==> i == Min(2 * k, |l|))
      invariant nmerges > 1 ==> |l| > 2 * k
      invariant Building(list, tail, o) && Waiting(l, i, |l|, o) && SetOf(o) <= SetOf(l)
      invariant o + Pass(cmp, l[i..], k) == Pass(cmp, l, k)
      decreases |l| - i
    {
      nmerges := nmerges + 1;
      list, tail, p, o := MergePair(cmp, p, k, list, tail, l, i, o);
      i := Min(i + 2 * k, |l|);
    }
    NothingToPass(cmp, l[i..], k);
    assert o + l[i..] == o;
    CloseList(list, tail, o, l);
  }

  /** The whole sort. */
  method SortList<K, V>(cmp: (Elem<K, V>, Elem<K, V>) -> int, head: Elem<K, V>, ghost l0: seq<Elem<K, V>>)
    returns (list: Elem<K, V>, tail: Elem<K, V>)
    requires Listed(head, At(l0, |l0| - 1), l0) && Distinct(l0)
    modifies SetOf(l0)`next, SetOf(l0)`prev
    ensures Listed(list, tail, SortFrom(cmp, l0, 1))
  {
    hide Pass, Distinct, SetOf, Listed;
    NonEmptyList(head, At(l0, |l0| - 1), l0);
    var first: Elem?, last: Elem? := head, null;
    var insize, looping := 1, true;
    ghost var l := l0;
    while looping
      invariant insize > 0 && SetOf(l) == SetOf(l0) && Distinct(l) && |l| == |l0| > 0
      invariant Listed(first, At(l, |l| - 1), l) && first != null && (looping || last == At(l, |l| - 1) != null)
      invariant (if looping then SortFrom(cmp, l, insize) else l) == SortFrom(cmp, l0, 1)
      decreases looping, if |l| > insize then |l| - insize else 0
    {
      PassKeepsItems(cmp, l, insize);
      var nmerges;
      first, last, nmerges := PassOver(cmp, first, insize, l);
      l := Pass(cmp, l, insize);
      EndsAt(first, last, l);
      if nmerges <= 1 { looping := false; }
      insize := insize * 2;
    }
    list, tail := first, last;
  }

  lemma NonEmptyList<K, V>(h: Elem<K, V>, t: Elem?<K, V>, l: seq<Elem<K, V>>)
    requires Listed(h, t, l)
    ensures |l| > 0
  {
  }

  lemma EndsAt<K, V>(h: Elem?<K, V>, t: Elem?<K, V>, l: seq<Elem<K, V>>)
    requires Listed(h, t, l)
    ensures t == At(l, |l| - 1) && h == At(l, 0) && (|l| > 0 ==> h != null && t != null)
  {
  }

  /** The sort leaves the buckets of a table alone. */
  method SortBesideBuckets<K, V>(cmp: (Elem<K, V>, Elem<K, V>) -> int, head: Elem<K, V>, ghost l: seq<Elem<K, V>>,
                                 ghost buckets: seq<Bucket<K, V>>, ghost chains: seq<seq<Elem<K, V>>>)
    returns (list: Elem<K, V>, tail: Elem<K, V>)
    requires Listed(head, At(l, |l| - 1), l) && Distinct(l) && Linked(buckets, chains)
    modifies SetOf(l)`next, SetOf(l)`prev
    ensures Listed(list, tail, SortFrom(cmp, l, 1)) && Linked(buckets, chains)
  {
    hide Listed, Distinct, SetOf, SortFrom;
    list, tail := SortList(cmp, head, l);
  }

  lemma PassKeepsItems<K, V>(cmp: (Elem<K, V>, Elem<K, V>) -> int, l: seq<Elem<K, V>>, k: nat)
    requires k > 0 && Distinct(l)
    ensures Distinct(Pass(cmp, l, k)) && SetOf(Pass(cmp, l, k)) == SetOf(l)
  {
    PassPermutes(cmp, l, k);
    SameMembers(Pass(cmp, l, k), l);
    PermutationDistinct(l, Pass(cmp, l, k));
  }

  lemma PermutationDistinct<T>(s: seq<T>, t: seq<T>)
    requires Distinct(s) && multiset(s) == multiset(t)
    ensures Distinct(t)
  {
    forall i, j | 0 <= i < j < |t| ensures t[i] != t[j] {
      if t[i] == t[j] {
        var x := t[i];
        assert t == t[..i] + [x] + t[i + 1..j] + [x] + t[j + 1..];
        assert multiset(s)[x] >= 2;
        Once(s, x);
      }
    }
  }

  lemma {:induction false} Once<T>(s: seq<T>, x: T)
    requires Distinct(s)
    ensures multiset(s)[x] <= 1
    decreases |s|
  {
    if |s| > 0 {
      var n := |s| - 1;
      Once(s[..n], x);
      assert s == s[..n] + [s[n]];
      assert s[n] !in s[..n];
    }
  }
}
