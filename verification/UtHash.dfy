/** The intrusive hash table: elements linked at once into a bucket chain and into a doubly linked list in
    application order, with automatic doubling of the buckets and recovery from a failed allocation. */
module UtHash {
  import opened Bits
  import opened HashLinks
  import opened HashSort
  import opened MergeSort

  const INITIAL_BUCKETS := 32
  const INITIAL_LOG2 := 5
  const CAPACITY_THRESHOLD := 10

  // ---------------------------------------------------------------- buckets as sequences

  /** The bucket a hash value selects. */
  function Bkt(hashv: nat, n: nat): nat
    requires n > 0
  {
    And(hashv, n - 1)
  }

  lemma BktInRange(hashv: nat, k: nat)
    ensures Bkt(hashv, Pow2(k)) == hashv % Pow2(k) < Pow2(k)
  {
    MaskIsMod(hashv, k);
  }

  /** Each chain holds exactly the items whose hash value selects its bucket, once each. */
  ghost predicate Partition<K, V>(chains: seq<seq<Elem<K, V>>>, items: set<Elem<K, V>>) {
    && |chains| > 0
    && (forall b :: 0 <= b < |chains| ==> Distinct(chains[b]))
    && (forall b :: 0 <= b < |chains| ==> forall x <- chains[b] :: x in items && Bkt(x.hashv, |chains|) == b)
    && (forall x <- items :: Bkt(x.hashv, |chains|) < |chains| && x in chains[Bkt(x.hashv, |chains|)])
  }

  ghost predicate Counted<K, V>(buckets: seq<Bucket<K, V>>, chains: seq<seq<Elem<K, V>>>) {
    |buckets| == |chains| && forall b :: 0 <= b < |chains| ==> buckets[b].count == |chains[b]|
  }

  /** The bucket array represents the chains, and the chains partition the items. */
  ghost predicate Buckets<K, V>(buckets: seq<Bucket<K, V>>, chains: seq<seq<Elem<K, V>>>, items: set<Elem<K, V>>)
    reads items
  {
    Partition(chains, items) && Members(chains) <= items && Counted(buckets, chains) && Linked(buckets, chains)
  }

  lemma PartitionAdd<K, V>(chains: seq<seq<Elem<K, V>>>, items: set<Elem<K, V>>, e: Elem<K, V>, b: nat)
    requires e in items && Partition(chains, items - {e}) && b == Bkt(e.hashv, |chains|) < |chains|
    ensures Partition(chains[b := [e] + chains[b]], items)
  {
    var cs := chains[b := [e] + chains[b]];
    assert e !in chains[b];
    forall x <- items ensures Bkt(x.hashv, |cs|) < |cs| && x in cs[Bkt(x.hashv, |cs|)] {
      if x != e { assert x in items - {e}; }
    }
  }

  /** Dropping an item from its chain. */
  lemma PartitionDrop<K, V>(chains: seq<seq<Elem<K, V>>>, items: set<Elem<K, V>>, e: Elem<K, V>, b: nat, c: seq<Elem<K, V>>)
    requires Partition(chains, items) && b < |chains| && e in chains[b]
    requires Distinct(c) && SetOf(c) == SetOf(chains[b]) - {e}
    ensures Partition(chains[b := c], items - {e})
  {
    var cs := chains[b := c];
    forall j, x | 0 <= j < |cs| && x in cs[j] ensures x in items - {e} && Bkt(x.hashv, |cs|) == j {
      if j == b {
        assert x in SetOf(c);
      }
    }
    forall x <- items - {e} ensures x in cs[Bkt(x.hashv, |cs|)] {
      if Bkt(x.hashv, |cs|) == b { assert x in SetOf(chains[b]) - {e}; }
    }
  }

  lemma FirstLeaves<K, V>(chains: seq<seq<Elem<K, V>>>, items: set<Elem<K, V>>, e: Elem<K, V>, b: nat)
    requires Partition(chains, items) && b < |chains| && |chains[b]| > 0 && chains[b][0] == e
    ensures var cs := chains[b := chains[b][1..]];
      Partition(cs, items - {e}) && forall i :: 0 <= i < |cs| ==> forall x <- cs[i] :: x in items - {e}
  {
    assert chains[b] == [e] + chains[b][1..];
    PartitionDrop(chains, items, e, b, chains[b][1..]);
  }

  lemma InitialSize()
    ensures Pow2(INITIAL_LOG2) == INITIAL_BUCKETS
  {
    assert Pow2(3) == 8;
  }

  lemma Singleton<K, V>(e: Elem<K, V>)
    requires e.prev == null && e.next == null
    ensures Listed(e, e, [e]) && Distinct([e]) && SetOf([e]) - {e} == {}
  {
  }

  lemma EmptyBuckets<K, V>(buckets: seq<Bucket<K, V>>, chains: seq<seq<Elem<K, V>>>)
    requires |buckets| == |chains| > 0
    requires forall b :: 0 <= b < |buckets| ==> buckets[b] == Bucket(null, 0, 0) && chains[b] == []
    ensures Buckets(buckets, chains, {})
  {
    assert Members(chains) == {};
  }

  lemma EndsOfList<K, V>(h: Elem?<K, V>, t: Elem?<K, V>, a: seq<Elem<K, V>>)
    requires Listed(h, t, a) && |a| > 0
    ensures h == a[0] && t == a[|a| - 1]
  {
  }

  /** Counts do not matter to the links. */
  lemma CountsKeepLinks<K, V>(bs: seq<Bucket<K, V>>, cs: seq<Bucket<K, V>>, chains: seq<seq<Elem<K, V>>>)
    requires Linked(bs, chains) && |cs| == |bs| && forall i :: 0 <= i < |bs| ==> cs[i].head == bs[i].head
    ensures Linked(cs, chains)
  {
  }

  lemma HeadOfList<K, V>(h: Elem?<K, V>, t: Elem?<K, V>, a: seq<Elem<K, V>>)
    requires Listed(h, t, a)
    ensures h == null <==> |a| == 0
    ensures |a| > 0 ==> t in a
  {
  }

  // ---------------------------------------------------------------- counting

  function SumCounts<K, V>(buckets: seq<Bucket<K, V>>): nat {
    if |buckets| == 0 then 0 else SumCounts(buckets[..|buckets| - 1]) + buckets[|buckets| - 1].count
  }

  /** The number of items beyond the ideal chain length, over all buckets. */
  function Excess<K, V>(buckets: seq<Bucket<K, V>>, ideal: nat): nat {
    if |buckets| == 0 then 0
    else Excess(buckets[..|buckets| - 1], ideal) + Over(buckets[|buckets| - 1].count, ideal)
  }

  function Over(count: nat, ideal: nat): nat {
    if count > ideal then count - ideal else 0
  }

  lemma {:induction false} ExcessUpdate<K, V>(buckets: seq<Bucket<K, V>>, ideal: nat, b: nat, v: Bucket<K, V>)
    requires b < |buckets|
    ensures Excess(buckets[b := v], ideal)
         == Excess(buckets, ideal) - Over(buckets[b].count, ideal) + Over(v.count, ideal)
    decreases |buckets|
  {
    var n := |buckets| - 1;
    if b < n {
      assert buckets[b := v][..n] == buckets[..n][b := v];
      ExcessUpdate(buckets[..n], ideal, b, v);
    } else {
      assert buckets[b := v][..n] == buckets[..n];
    }
  }

  lemma OneBucketExcess<K, V>(buckets: seq<Bucket<K, V>>, ideal: nat, b: nat)
    requires b < |buckets| && forall i :: 0 <= i < |buckets| && i != b ==> buckets[i].count == 0
    ensures Excess(buckets, ideal) == Over(buckets[b].count, ideal)
  {
    var none := buckets[b := Bucket(null, 0, 0)];
    EmptyExcess(none, ideal);
    ExcessUpdate(none, ideal, b, buckets[b]);
    assert none[b := buckets[b]] == buckets;
  }

  lemma {:induction false} EmptyExcess<K, V>(buckets: seq<Bucket<K, V>>, ideal: nat)
    requires forall b :: 0 <= b < |buckets| ==> buckets[b].count == 0
    ensures Excess(buckets, ideal) == 0
    decreases |buckets|
  {
    if |buckets| > 0 { EmptyExcess(buckets[..|buckets| - 1], ideal); }
  }

  function Flatten<T>(chains: seq<seq<T>>): seq<T> {
    if |chains| == 0 then [] else Flatten(chains[..|chains| - 1]) + chains[|chains| - 1]
  }

  lemma {:induction false} InFlatten<T>(chains: seq<seq<T>>, x: T)
    ensures x in Flatten(chains) <==> exists b :: 0 <= b < |chains| && x in chains[b]
    decreases |chains|
  {
    if |chains| > 0 {
      var n := |chains| - 1;
      InFlatten(chains[..n], x);
      if exists b :: 0 <= b < |chains| && x in chains[b] {
        var b :| 0 <= b < |chains| && x in chains[b];
        if b < n { assert x in chains[..n][b]; }
      }
    }
  }

  /** Chains of a partition share no item, so the items of the first chains are distinct. */
  lemma {:induction false} FlattenDistinct<K, V>(chains: seq<seq<Elem<K, V>>>, items: set<Elem<K, V>>, n: nat)
    requires Partition(chains, items) && n <= |chains|
    ensures Distinct(Flatten(chains[..n]))
    ensures forall x <- Flatten(chains[..n]) :: x in items && Bkt(x.hashv, |chains|) < n
    ensures forall x <- items :: Bkt(x.hashv, |chains|) < n ==> x in Flatten(chains[..n])
    decreases n
  {
    if n > 0 {
      FlattenDistinct(chains, items, n - 1);
      assert chains[..n][..n - 1] == chains[..n - 1];
      var f, c := Flatten(chains[..n - 1]), chains[n - 1];
      assert Flatten(chains[..n]) == f + c;
      assert forall x <- f + c :: x in f || x in c;
      forall i, j | 0 <= i < j < |f + c| ensures (f + c)[i] != (f + c)[j] {
        if i < |f| && |f| <= j {
          assert f[i] in f && c[j - |f|] in c;
        }
      }
    }
  }

  /** Two enumerations of the same distinct items are permutations of each other. */
  lemma {:induction false} SameItems<T>(s: seq<T>, t: seq<T>)
    requires Distinct(s) && Distinct(t)
    requires (forall x <- s :: x in t) && (forall x <- t :: x in s)
    ensures multiset(s) == multiset(t) && |s| == |t|
  {
    DistinctMultiset(s);
    DistinctMultiset(t);
    forall x ensures multiset(s)[x] == multiset(t)[x] {
      assert x in s <==> x in multiset(s);
      assert x in t <==> x in multiset(t);
    }
    assert multiset(s) == multiset(t);
    assert |s| == |multiset(s)| && |t| == |multiset(t)|;
  }

  lemma {:induction false} DistinctMultiset<T>(s: seq<T>)
    requires Distinct(s)
    ensures forall x :: multiset(s)[x] <= 1
    decreases |s|
  {
    if |s| > 0 {
      var n := |s| - 1;
      DistinctMultiset(s[..n]);
      assert s == s[..n] + [s[n]];
      assert s[n] !in s[..n];
    }
  }

  lemma {:induction false} SumIsFlatten<K, V>(buckets: seq<Bucket<K, V>>, chains: seq<seq<Elem<K, V>>>)
    requires |buckets| == |chains| && forall b :: 0 <= b < |chains| ==> buckets[b].count == |chains[b]|
    ensures SumCounts(buckets) == |Flatten(chains)|
    decreases |chains|
  {
    if |chains| > 0 {
      SumIsFlatten(buckets[..|chains| - 1], chains[..|chains| - 1]);
    }
  }

  /** The bucket counts sum to the number of items, and the chains hold the same items as the list. */
  lemma CountsSum<K, V>(buckets: seq<Bucket<K, V>>, chains: seq<seq<Elem<K, V>>>, list: seq<Elem<K, V>>)
    requires Buckets(buckets, chains, SetOf(list)) && Distinct(list)
    ensures SumCounts(buckets) == |list| && multiset(Flatten(chains)) == multiset(list)
  {
    SumIsFlatten(buckets, chains);
    FlattenDistinct(chains, SetOf(list), |chains|);
    assert chains[..|chains|] == chains;
    SameItems(Flatten(chains), list);
  }

  // ---------------------------------------------------------------- redistribution

  /** The chain of bucket `j` after moving the items of `s`, in order, each to the front of its new bucket. */
  ghost function Moved<K, V>(s: seq<Elem<K, V>>, n: nat, j: nat): seq<Elem<K, V>>
    requires n > 0
  {
    if |s| == 0 then []
    else
      var x, rest := s[|s| - 1], Moved(s[..|s| - 1], n, j);
      if Bkt(x.hashv, n) == j then [x] + rest else rest
  }

  lemma {:induction false} MovedItems<K, V>(s: seq<Elem<K, V>>, n: nat, j: nat)
    requires n > 0
    ensures forall x <- Moved(s, n, j) :: x in s && Bkt(x.hashv, n) == j
    ensures forall x <- s :: Bkt(x.hashv, n) == j ==> x in Moved(s, n, j)
    ensures Distinct(s) ==> Distinct(Moved(s, n, j))
    decreases |s|
  {
    if |s| > 0 {
      var m := |s| - 1;
      MovedItems(s[..m], n, j);
      assert s == s[..m] + [s[m]];
      assert forall x <- s :: x in s[..m] || x == s[m];
    }
  }

  /** The new bucket array after the items `s` have been moved. */
  ghost predicate MovedInto<K, V>(buckets: seq<Bucket<K, V>>, s: seq<Elem<K, V>>, ideal: nat)
    reads SetOf(s)
  {
    && |buckets| > 0
    && forall j :: 0 <= j < |buckets| ==>
         var c := Moved(s, |buckets|, j);
         && (forall x <- c :: x in SetOf(s))
         && Chained(buckets[j].head, c)
         && buckets[j].count == |c| && buckets[j].expandMult == MultOf(|c|, ideal)
  }

  /** How often the expansion threshold of a bucket has been raised once it holds `count` items. */
  function MultOf(count: nat, ideal: nat): nat {
    if count == 0 then 0
    else
      var m := MultOf(count - 1, ideal);
      if count > ideal && count > m * ideal then m + 1 else m
  }

  /** How far a doubling raises the threshold of a bucket: not at all up to the ideal length, once for one item more, and
      beyond that until the items fit into as many ideal lengths; with an ideal length of one it stops one short. */
  predicate Raised(count: nat, mult: nat, ideal: nat)
    requires ideal >= 1
  {
    if count <= ideal then mult == 0
    else if count == ideal + 1 then mult == 1
    else if ideal == 1 then mult == count - 1
    else mult == CeilDiv(count, ideal)
  }

  /** The number of items that crowds such a bucket. */
  function Threshold(count: nat, ideal: nat): nat
    requires ideal >= 1
  {
    if count <= ideal then 10
    else if count == ideal + 1 then 20
    else if ideal == 1 then 10 * count
    else 10 * (CeilDiv(count, ideal) + 1)
  }

  lemma {:induction false} MultIs(count: nat, ideal: nat)
    requires ideal >= 1
    ensures Raised(count, MultOf(count, ideal), ideal)
  {
    hide CeilDiv;
    if count > 0 {
      var m := MultOf(count - 1, ideal);
      MultIs(count - 1, ideal);
      if count > ideal + 1 && ideal > 1 { OnceMore(count, ideal, m); }
    }
  }

  /** One item more beyond the first above the ideal length. */
  lemma OnceMore(count: nat, ideal: nat, m: nat)
    requires count > ideal + 1 && ideal > 1 && m == if count == ideal + 2 then 1 else CeilDiv(count - 1, ideal)
    ensures CeilDiv(count, ideal) == if count > m * ideal then m + 1 else m
  {
    hide CeilDiv;
    if count == ideal + 2 {
      CeilIs(count, ideal, 2);
    } else {
      CeilIs(count - 1, ideal, m);
      Multiples(m, ideal);
      CeilIs(count, ideal, if count > m * ideal then m + 1 else m);
    }
  }

  lemma Multiples(m: nat, ideal: nat)
    ensures (m + 1) * ideal == m * ideal + ideal && (m - 1) * ideal == m * ideal - ideal
  {
  }

  lemma TenOfOne(mult: nat)
    ensures Raised(10, mult, 1) <==> mult == 9
  {
  }

  lemma CeilPositive(n: nat, b: nat)
    requires n > 0 && b > 0
    ensures CeilDiv(n, b) >= 1
  {
    CeilIs(n, b, 0);
  }

  lemma AllRaised<K, V>(buckets: seq<Bucket<K, V>>, s: seq<Elem<K, V>>, ideal: nat)
    requires MovedInto(buckets, s, ideal) && ideal >= 1
    ensures forall b :: 0 <= b < |buckets| ==> Raised(buckets[b].count, buckets[b].expandMult, ideal)
  {
    hide Moved, Chained, Raised;
    forall b | 0 <= b < |buckets| ensures Raised(buckets[b].count, buckets[b].expandMult, ideal) {
      MultIs(buckets[b].count, ideal);
    }
  }

  lemma EmptyMoved<K, V>(buckets: seq<Bucket<K, V>>, ideal: nat)
    requires |buckets| > 0 && forall b :: 0 <= b < |buckets| ==> buckets[b] == Bucket(null, 0, 0)
    ensures MovedInto(buckets, [], ideal)
  {
  }

  lemma MovedSnoc<K, V>(s: seq<Elem<K, V>>, x: Elem<K, V>, n: nat, j: nat)
    requires n > 0
    ensures Moved(s + [x], n, j) == if Bkt(x.hashv, n) == j then [x] + Moved(s, n, j) else Moved(s, n, j)
  {
    assert (s + [x])[..|s|] == s;
  }

  lemma MovedApart<K, V>(s: seq<Elem<K, V>>, x: Elem<K, V>, n: nat, b: nat, j: nat)
    requires n > 0 && b != j && x !in s
    ensures SetOf(Moved(s, n, j)) !! SetOf(Moved(s, n, b)) + {x}
  {
    MovedItems(s, n, j);
    MovedItems(s, n, b);
  }

  /** Links an item in front of a chain. */
  method PushFront<K, V>(x: Elem<K, V>, h: Elem?<K, V>, ghost c: seq<Elem<K, V>>)
    requires Chained(h, c) && x !in c
    modifies x`hhPrev, x`hhNext, SetOf(c)`hhPrev
    ensures Chained(x, [x] + c)
  {
    ghost var all := [x] + c;
    assert all[0] == x && forall i :: 0 <= i < |c| ==> all[i + 1] == c[i];
    assert |c| > 0 ==> c[0].hhPrev == null;
    assert forall k {:trigger c[k].hhPrev} :: 0 < k < |c| ==> c[k].hhPrev == c[k - 1];
    x.hhNext := h;
    x.hhPrev := null;
    if h != null { h.hhPrev := x; }
    forall i {:trigger all[i].hhPrev} | 0 <= i < |all| ensures all[i].hhPrev == At(all, i - 1) {
      if i > 1 { assert old(c[i - 1].hhPrev) == c[i - 2]; }
    }
  }

  /** Unlinks the first item of a chain; `h` is the new head. */
  method PopFront<K, V>(x: Elem<K, V>, ghost c: seq<Elem<K, V>>) returns (h: Elem?<K, V>)
    requires Chained(x, [x] + c) && x !in c
    modifies x`hhPrev, x`hhNext, SetOf(c)`hhPrev
    ensures h == old(x.hhNext) && Chained(h, c) && x.hhNext == null && x.hhPrev == null
  {
    ghost var all := [x] + c;
    assert all[0] == x;
    forall i | 0 <= i < |c| ensures c[i].hhNext == At(c, i + 1) && (i > 0 ==> c[i].hhPrev == At(c, i - 1)) {
      assert all[i + 1] == c[i];
    }
    h := x.hhNext;
    if x.hhNext != null { x.hhNext.hhPrev := x.hhPrev; }
    x.hhNext := null;
    x.hhPrev := null;
  }

  /** Moves one item to the front of its new bucket, keeping count of the items beyond the ideal length. */
  method MoveOne<K, V>(x: Elem<K, V>, buckets: seq<Bucket<K, V>>, nonideal: nat, ideal: nat, ghost s: seq<Elem<K, V>>)
    returns (bs: seq<Bucket<K, V>>, over: nat)
    requires MovedInto(buckets, s, ideal) && x !in s && Bkt(x.hashv, |buckets|) < |buckets|
    requires nonideal == Excess(buckets, ideal)
    modifies x`hhPrev, x`hhNext, SetOf(s)`hhPrev
    ensures |bs| == |buckets| && MovedInto(bs, s + [x], ideal) && over == Excess(bs, ideal)
    ensures ideal >= 1 ==> forall b :: 0 <= b < |bs| ==> Raised(bs[b].count, bs[b].expandMult, ideal)
  {
    hide Moved, Bkt, Chained, Excess, Raised;
    ghost var n := |buckets|;
    var b := Bkt(x.hashv, |buckets|);
    var bkt := buckets[b];
    var count, mult := bkt.count + 1, bkt.expandMult;
    over := nonideal;
    if count > ideal {
      over := over + 1;
      if count > mult * ideal { mult := mult + 1; }
    }
    MovedItems(s, n, b);
    PushFront(x, bkt.head, Moved(s, n, b));
    bs := buckets[b := Bucket(x, count, mult)];
    ExcessUpdate(buckets, ideal, b, bs[b]);
    forall j | 0 <= j < |bs|
      ensures var c := Moved(s + [x], |bs|, j);
        && (forall y <- c :: y in SetOf(s + [x])) && Chained(bs[j].head, c)
        && bs[j].count == |c| && bs[j].expandMult == MultOf(|c|, ideal)
    {
      MovedSnoc(s, x, n, j);
      if j != b { MovedApart(s, x, n, b, j); }
    }
    if ideal >= 1 { AllRaised(bs, s + [x], ideal); }
  }

  /** Moves a whole chain. The link to the next item is read before the item is moved. */
  method MoveChain<K, V>(h: Elem?<K, V>, ghost c: seq<Elem<K, V>>, bs0: seq<Bucket<K, V>>, nonideal: nat, ideal: nat,
                         ghost k2: nat, ghost s: seq<Elem<K, V>>)
    returns (bs: seq<Bucket<K, V>>, over: nat)
    requires Chained(h, c) && Distinct(c) && SetOf(c) !! SetOf(s)
    requires MovedInto(bs0, s, ideal) && |bs0| == Pow2(k2) && nonideal == Excess(bs0, ideal)
    modifies SetOf(c)`hhPrev, SetOf(c)`hhNext, SetOf(s)`hhPrev
    ensures |bs| == |bs0| && MovedInto(bs, s + c, ideal) && over == Excess(bs, ideal)
  {
    hide Moved, Bkt, Excess, MovedInto;
    bs, over := bs0, nonideal;
    var thh := h;
    ghost var k := 0;
    assert s + c[..0] == s;
    while thh != null
      invariant 0 <= k <= |c| && thh == if k < |c| then c[k] else null
      invariant |bs| == |bs0| && MovedInto(bs, s + c[..k], ideal) && over == Excess(bs, ideal)
      invariant forall i :: k <= i < |c| ==> c[i].hhNext == old(c[i].hhNext)
      decreases |c| - k
    {
      var nxt := thh.hhNext;
      BktInRange(thh.hashv, k2);
      assert s + c[..k] + [c[k]] == s + c[..k + 1];
      bs, over := MoveOne(thh, bs, over, ideal, s + c[..k]);
      thh := nxt;
      k := k + 1;
    }
    assert c[..k] == c;
  }

  /** Moves the chains of every bucket. */
  method MoveAll<K, V>(old_buckets: seq<Bucket<K, V>>, ghost chains: seq<seq<Elem<K, V>>>, ghost items: set<Elem<K, V>>,
                       bs0: seq<Bucket<K, V>>, ideal: nat, ghost k2: nat)
    returns (bs: seq<Bucket<K, V>>, over: nat)
    requires Buckets(old_buckets, chains, items)
    requires MovedInto(bs0, [], ideal) && |bs0| == Pow2(k2) && Excess(bs0, ideal) == 0
    modifies items`hhPrev, items`hhNext
    ensures |bs| == |bs0| && MovedInto(bs, Flatten(chains), ideal) && over == Excess(bs, ideal)
  {
    hide Moved, Bkt, Excess, MovedInto, Partition;
    bs, over := bs0, 0;
    var i := 0;
    while i < |old_buckets|
      invariant 0 <= i <= |old_buckets|
      invariant |bs| == |bs0| && MovedInto(bs, Flatten(chains[..i]), ideal) && over == Excess(bs, ideal)
      invariant forall b :: i <= b < |chains| ==> Chained(old_buckets[b].head, chains[b])
    {
      ghost var f := Flatten(chains[..i]);
      assert chains[..i + 1][..i] == chains[..i];
      NextChain(chains, items, i);
      forall b | i < b < |chains| ensures SetOf(chains[b]) !! SetOf(f) + SetOf(chains[i]) {
        NextChain(chains, items, b);
        EarlierInFlatten(chains, i, b);
      }
      bs, over := MoveChain(old_buckets[i].head, chains[i], bs, over, ideal, k2, f);
      i := i + 1;
    }
    assert chains[..i] == chains;
  }

  lemma NextChain<K, V>(chains: seq<seq<Elem<K, V>>>, items: set<Elem<K, V>>, i: nat)
    requires Partition(chains, items) && i < |chains|
    ensures Distinct(chains[i]) && SetOf(chains[i]) !! SetOf(Flatten(chains[..i]))
    ensures SetOf(chains[i]) <= items && SetOf(Flatten(chains[..i])) <= items
  {
    FlattenDistinct(chains, items, i);
  }

  lemma EarlierInFlatten<K, V>(chains: seq<seq<Elem<K, V>>>, i: nat, b: nat)
    requires i < b < |chains|
    ensures SetOf(Flatten(chains[..i])) + SetOf(chains[i]) <= SetOf(Flatten(chains[..b]))
  {
    forall x <- SetOf(Flatten(chains[..i])) + SetOf(chains[i]) ensures x in Flatten(chains[..b]) {
      InFlatten(chains[..i], x);
      InFlatten(chains[..b], x);
      if x in chains[i] {
        assert x in chains[..b][i];
      } else {
        var j :| 0 <= j < |chains[..i]| && x in chains[..i][j];
        assert x in chains[..b][j];
      }
    }
  }

  /** The chains after a move partition the same items. */
  lemma MovedPartition<K, V>(chains: seq<seq<Elem<K, V>>>, items: set<Elem<K, V>>, k2: nat)
    requires Partition(chains, items)
    ensures SetOf(Flatten(chains)) == items && Partition(NewChains(chains, k2), items)
  {
    FlattenDistinct(chains, items, |chains|);
    assert chains[..|chains|] == chains;
    var f, n := Flatten(chains), Pow2(k2);
    forall j | 0 <= j < n ensures Distinct(Moved(f, n, j)) { MovedItems(f, n, j); }
    forall j | 0 <= j < n
      ensures forall x <- Moved(f, n, j) :: x in items && Bkt(x.hashv, n) == j
      ensures forall x <- items :: Bkt(x.hashv, n) == j ==> x in Moved(f, n, j)
    { MovedItems(f, n, j); }
    forall x <- items ensures Bkt(x.hashv, n) < n { BktInRange(x.hashv, k2); }
    var cs := NewChains(chains, k2);
    assert forall x <- items :: x in cs[Bkt(x.hashv, n)];
  }

  /** The chains after redistribution into `Pow2(k2)` buckets. */
  ghost function NewChains<K, V>(chains: seq<seq<Elem<K, V>>>, k2: nat): (r: seq<seq<Elem<K, V>>>)
    ensures |r| == Pow2(k2)
  {
    var f := Flatten(chains);
    seq(Pow2(k2), j requires 0 <= j => Moved(f, Pow2(k2), j))
  }

  /** The moved chains, as the new bucket array represents them. */
  lemma MovedBuckets<K, V>(bs: seq<Bucket<K, V>>, chains: seq<seq<Elem<K, V>>>, items: set<Elem<K, V>>, ideal: nat, k2: nat)
    requires Partition(chains, items) && |bs| == Pow2(k2) && MovedInto(bs, Flatten(chains), ideal)
    ensures Buckets(bs, NewChains(chains, k2), items)
  {
    MovedPartition(chains, items, k2);
  }

  /** The links that a list and chains prescribe: previous and next in the list, previous and next in the chain. */
  ghost function LinksOf<K, V>(a: seq<Elem<K, V>>, chains: seq<seq<Elem<K, V>>>)
    : map<Elem<K, V>, (Elem?<K, V>, Elem?<K, V>, Elem?<K, V>, Elem?<K, V>)>
    requires |a| > 0 ==> Partition(chains, SetOf(a))
  {
    if |a| == 0 then map[]
    else
      map x | x in SetOf(a) ::
        var c := chains[Bkt(x.hashv, |chains|)];
        var i: int, k: int := Pos(a, x), Pos(c, x);
        (At(a, i - 1), At(a, i + 1), At(c, k - 1), At(c, k + 1))
  }

  lemma ListLinks<K, V>(h: Elem?<K, V>, t: Elem?<K, V>, a: seq<Elem<K, V>>, x: Elem<K, V>)
    requires Listed(h, t, a) && x in a
    ensures x.prev == At(a, Pos(a, x) as int - 1) && x.next == At(a, Pos(a, x) + 1)
  {
    var i := Pos(a, x);
    assert a[i].prev == x.prev && a[i].next == x.next;
  }

  lemma ChainLinks<K, V>(h: Elem?<K, V>, c: seq<Elem<K, V>>, x: Elem<K, V>)
    requires Chained(h, c) && x in c
    ensures x.hhPrev == At(c, Pos(c, x) as int - 1) && x.hhNext == At(c, Pos(c, x) + 1)
  {
    var i := Pos(c, x);
    assert c[i].hhPrev == x.hhPrev && c[i].hhNext == x.hhNext;
  }

  lemma BucketOf<K, V>(chains: seq<seq<Elem<K, V>>>, items: set<Elem<K, V>>, x: Elem<K, V>) returns (b: nat)
    requires Partition(chains, items) && x in items
    ensures b == Bkt(x.hashv, |chains|) < |chains| && x in chains[b]
  {
    b := Bkt(x.hashv, |chains|);
  }

  /** The list without one of its elements. */
  ghost function Without<T>(s: seq<T>, x: T): (r: seq<T>)
    requires x in s
  {
    s[..Pos(s, x)] + s[Pos(s, x) + 1..]
  }

  lemma WithoutIs<T>(s: seq<T>, x: T)
    requires Distinct(s) && x in s
    ensures Distinct(Without(s, x)) && SetOf(Without(s, x)) == SetOf(s) - {x}
    ensures |Without(s, x)| == |s| - 1 && Without(s, x) == s[..Pos(s, x)] + s[Pos(s, x) + 1..]
    ensures forall y <- Without(s, x) :: y in s
  {
    var i, r := Pos(s, x), Without(s, x);
    forall y <- SetOf(s) - {x} ensures y in r {
      var j :| 0 <= j < |s| && s[j] == y;
      assert r[if j < i then j else j - 1] == y;
    }
    assert forall j :: 0 <= j < |r| ==> r[j] == s[if j < i then j else j + 1];
  }

  lemma SetOfContains<T>(s: seq<T>, x: T)
    ensures x in s <==> x in SetOf(s)
  {
  }

  lemma BucketCount<K, V>(buckets: seq<Bucket<K, V>>, chains: seq<seq<Elem<K, V>>>, items: set<Elem<K, V>>)
    requires Buckets(buckets, chains, items)
    ensures |buckets| == |chains|
  {
  }

  lemma CountedWithout<K, V>(buckets: seq<Bucket<K, V>>, chains: seq<seq<Elem<K, V>>>, b: nat, k: nat, h: Elem?<K, V>)
    requires Counted(buckets, chains) && b < |chains| && k < |chains[b]|
    ensures buckets[b].count > 0
    ensures Counted(buckets[b := buckets[b].(head := h, count := buckets[b].count - 1)],
                    chains[b := chains[b][..k] + chains[b][k + 1..]])
  {
  }

  lemma Alone<K, V>(a: seq<Elem<K, V>>, e: Elem<K, V>)
    requires e in a && At(a, Pos(a, e) as int - 1) == null && At(a, Pos(a, e) + 1) == null
    ensures a == [e] && Without(a, e) == []
  {
  }

  lemma NotAlone<K, V>(a: seq<Elem<K, V>>, i: nat)
    requires i < |a| && (At(a, i - 1) != null || At(a, i + 1) != null)
    ensures |a| > 1
  {
  }

  lemma NoList<K, V>()
    ensures Listed<K, V>(null, null, []) && Distinct<Elem<K, V>>([])
  {
  }

  /** The chains once `e` is gone, and where it was. */
  lemma ChainWithout<K, V>(chains: seq<seq<Elem<K, V>>>, items: set<Elem<K, V>>, e: Elem<K, V>)
    returns (k: nat, cs: seq<seq<Elem<K, V>>>)
    requires Partition(chains, items) && e in items
    ensures var b := Bkt(e.hashv, |chains|);
      && b < |chains| && k < |chains[b]| && chains[b][k] == e
      && cs == chains[b := chains[b][..k] + chains[b][k + 1..]] && Partition(cs, items - {e})
  {
    var b := BucketOf(chains, items, e);
    k := Pos(chains[b], e);
    cs := chains[b := Without(chains[b], e)];
    WithoutIs(chains[b], e);
    PartitionDrop(chains, items, e, b, Without(chains[b], e));
  }

  // ---------------------------------------------------------------- relinking

  /** Chains that share no item. */
  ghost predicate Apart<K, V>(chains: seq<seq<Elem<K, V>>>) {
    && (forall b :: 0 <= b < |chains| ==> Distinct(chains[b]))
    && (forall i, j :: 0 <= i < |chains| && 0 <= j < |chains| && i != j ==> SetOf(chains[i]) !! SetOf(chains[j]))
  }

  lemma PartitionApart<K, V>(chains: seq<seq<Elem<K, V>>>, items: set<Elem<K, V>>)
    requires Partition(chains, items)
    ensures Apart(chains) && Members(chains) <= items
    ensures forall b :: 0 <= b < |chains| ==> SetOf(chains[b]) <= items
  {
    hide Bkt, Distinct;
  }

  lemma NotMember<K, V>(chains: seq<seq<Elem<K, V>>>, e: Elem<K, V>)
    requires e !in Members(chains)
    ensures forall b :: 0 <= b < |chains| ==> e !in chains[b]
  {
    assert forall b, x :: 0 <= b < |chains| && x in chains[b] ==> x in Members(chains);
  }

  /** Links an element in front of the chain of bucket `b`. The application-order list is not disturbed. */
  method LinkFront<K, V>(e: Elem<K, V>, b: nat, buckets: seq<Bucket<K, V>>, ghost chains: seq<seq<Elem<K, V>>>,
                         ghost h: Elem?<K, V>, ghost t: Elem?<K, V>, ghost a: seq<Elem<K, V>>)
    returns (bs: seq<Bucket<K, V>>)
    requires Linked(buckets, chains) && Apart(chains) && b < |chains| && e !in Members(chains) && Listed(h, t, a)
    modifies e`hhPrev, e`hhNext, SetOf(chains[b])`hhPrev
    ensures bs == buckets[b := Bucket(e, buckets[b].count + 1, buckets[b].expandMult)]
    ensures Linked(bs, chains[b := [e] + chains[b]]) && Listed(h, t, a)
  {
    hide Distinct, Members;
    NotMember(chains, e);
    PushFront(e, buckets[b].head, chains[b]);
    bs := buckets[b := Bucket(e, buckets[b].count + 1, buckets[b].expandMult)];
    ghost var cs := chains[b := [e] + chains[b]];
    forall i | 0 <= i < |cs| ensures Chained(bs[i].head, cs[i]) {
      if i != b { assert SetOf(chains[i]) !! SetOf(chains[b]); }
    }
  }

  /** The first half of undoing an addition: the element leaves the front of its bucket, and the count, taken down
      by that deletion, is put back. */
  method UnlinkFront<K, V>(e: Elem<K, V>, b: nat, buckets: seq<Bucket<K, V>>, ghost chains: seq<seq<Elem<K, V>>>,
                           ghost c: seq<Elem<K, V>>, ghost h: Elem?<K, V>, ghost t: Elem?<K, V>, ghost a: seq<Elem<K, V>>)
    returns (bs: seq<Bucket<K, V>>)
    requires Linked(buckets, chains) && Apart(chains) && b < |chains| && chains[b] == [e] + c && Listed(h, t, a)
    requires buckets[b].count > 0
    modifies e`hhPrev, e`hhNext, SetOf(c)`hhPrev
    ensures bs == buckets[b := Bucket(old(e.hhNext), buckets[b].count, buckets[b].expandMult)]
    ensures Linked(bs, chains[b := c]) && Listed(h, t, a)
  {
    assert e !in c by { assert Distinct(chains[b]); assert forall i :: 0 <= i < |c| ==> chains[b][i + 1] == c[i]; }
    assert SetOf(chains[b]) == SetOf(c) + {e};
    var next := PopFront(e, c);
    bs := buckets[b := Bucket(next, buckets[b].count - 1, buckets[b].expandMult)];
    bs := bs[b := bs[b].(count := bs[b].count + 1)];
    ghost var cs := chains[b := c];
    forall i | 0 <= i < |cs| ensures Chained(bs[i].head, cs[i]) {
      if i != b { assert SetOf(chains[i]) !! SetOf(chains[b]); }
    }
  }

  /** Unlinks any element from the chain of its bucket. */
  method UnlinkFromBucket<K, V>(e: Elem<K, V>, b: nat, buckets: seq<Bucket<K, V>>, ghost chains: seq<seq<Elem<K, V>>>,
                                ghost k: nat, ghost h: Elem?<K, V>, ghost t: Elem?<K, V>, ghost a: seq<Elem<K, V>>)
    returns (bs: seq<Bucket<K, V>>)
    requires Linked(buckets, chains) && Apart(chains) && b < |chains| && Listed(h, t, a)
    requires k < |chains[b]| && chains[b][k] == e && buckets[b].count > 0
    modifies SetOf(chains[b])`hhPrev, SetOf(chains[b])`hhNext
    ensures Listed(h, t, a)
    ensures |bs| == |buckets| && Linked(bs, chains[b := chains[b][..k] + chains[b][k + 1..]])
    ensures bs == buckets[b := buckets[b].(head := bs[b].head, count := buckets[b].count - 1)]
  {
    hide Members;
    ghost var c := chains[b];
    ghost var d := c[..k] + c[k + 1..];
    var bkt := buckets[b].(count := buckets[b].count - 1);
    if bkt.head == e { bkt := bkt.(head := e.hhNext); }
    UnlinkFromChain(e, c, k, h, t, a);
    bs := buckets[b := bkt];
    ghost var cs := chains[b := d];
    forall i | 0 <= i < |cs| ensures Chained(bs[i].head, cs[i]) {
      if i != b { assert SetOf(chains[i]) !! SetOf(chains[b]); }
    }
  }

  /** The two link updates of a deletion from a chain. */
  method UnlinkFromChain<K, V>(e: Elem<K, V>, ghost c: seq<Elem<K, V>>, ghost k: nat,
                               ghost h: Elem?<K, V>, ghost t: Elem?<K, V>, ghost a: seq<Elem<K, V>>)
    requires Chained(At(c, 0), c) && Distinct(c) && k < |c| && c[k] == e && Listed(h, t, a)
    modifies SetOf(c)`hhPrev, SetOf(c)`hhNext
    ensures var d := c[..k] + c[k + 1..]; Chained(if k == 0 then old(e.hhNext) else c[0], d)
    ensures Listed(h, t, a) && old(e.hhNext) == At(c, k + 1)
  {
    ghost var d := c[..k] + c[k + 1..];
    assert e.hhPrev == At(c, k - 1) && e.hhNext == At(c, k + 1);
    if e.hhPrev != null { e.hhPrev.hhNext := e.hhNext; }
    if e.hhNext != null { e.hhNext.hhPrev := e.hhPrev; }
    forall j {:trigger d[j].hhNext} | 0 <= j < |d| ensures d[j].hhNext == At(d, j + 1) {
      assert j < k ==> d[j] == c[j];
      assert j >= k ==> d[j] == c[j + 1];
    }
    forall j {:trigger d[j].hhPrev} | 0 <= j < |d| ensures d[j].hhPrev == At(d, j - 1) {
      assert j < k ==> d[j] == c[j];
      assert j >= k ==> d[j] == c[j + 1];
    }
  }

  /** Links an element behind the last of the list. The buckets are not disturbed. */
  method LinkLast<K, V>(e: Elem<K, V>, h: Elem?<K, V>, t: Elem<K, V>, ghost a: seq<Elem<K, V>>,
                        ghost buckets: seq<Bucket<K, V>>, ghost chains: seq<seq<Elem<K, V>>>)
    requires Listed(h, t, a) && |a| > 0 && e !in a && Linked(buckets, chains) && Distinct(a)
    modifies e`prev, e`next, t`next
    ensures Listed(h, e, a + [e]) && Linked(buckets, chains) && e.prev == t
  {
    ghost var all := a + [e];
    assert t == a[|a| - 1];
    e.next := null;
    e.prev := t;
    t.next := e;
    forall i {:trigger all[i].next} | 0 <= i < |all| ensures all[i].next == At(all, i + 1) {
      if i < |a| - 1 { assert a[i] != t; }
    }
  }

  /** Unlinks any element from the list; `h` and `t` are the head and tail afterwards. */
  method UnlinkNode<K, V>(e: Elem<K, V>, h0: Elem<K, V>, t0: Elem<K, V>, ghost a: seq<Elem<K, V>>, ghost i: nat,
                          ghost buckets: seq<Bucket<K, V>>, ghost chains: seq<seq<Elem<K, V>>>)
    returns (h: Elem?<K, V>, t: Elem?<K, V>)
    requires Listed(h0, t0, a) && Distinct(a) && |a| > 1 && i < |a| && a[i] == e && Linked(buckets, chains)
    modifies SetOf(a)`next, SetOf(a)`prev
    ensures Listed(h, t, a[..i] + a[i + 1..]) && Linked(buckets, chains)
    ensures t == if t0 == e then old(e.prev) else t0
  {
    h, t := h0, t0;
    assert e.prev == At(a, i - 1) && e.next == At(a, i + 1);
    if e == t { t := e.prev; }
    if e.prev != null {
      e.prev.next := e.next;
    } else {
      h := e.next;
    }
    if e.next != null { e.next.prev := e.prev; }
    ghost var all := a[..i] + a[i + 1..];
    forall j {:trigger all[j].next} | 0 <= j < |all| ensures all[j].next == At(all, j + 1) {
      assert j < i ==> all[j] == a[j];
      assert j >= i ==> all[j] == a[j + 1];
    }
    forall j {:trigger all[j].prev} | 0 <= j < |all| ensures all[j].prev == At(all, j - 1) {
      assert j < i ==> all[j] == a[j];
      assert j >= i ==> all[j] == a[j + 1];
    }
  }

  /** `e` is the first element of `c` that has the key. */
  ghost predicate FirstWith<K, V>(c: seq<Elem<K, V>>, key: K, e: Elem<K, V>) {
    exists k :: 0 <= k < |c| && c[k] == e && e.key == key && forall j :: 0 <= j < k ==> c[j].key != key
  }

  /** Sorting permutes the items. */
  lemma SortKeepsItems<K, V>(cmp: (Elem<K, V>, Elem<K, V>) -> int, a: seq<Elem<K, V>>)
    requires Distinct(a)
    ensures var s := SortFrom(cmp, a, 1); Distinct(s) && SetOf(s) == SetOf(a) && |s| == |a| && forall x <- s :: x in a
    ensures |a| == 0 ==> SortFrom(cmp, a, 1) == a
  {
    SortPermutes(cmp, a, 1);
    SameMembers(SortFrom(cmp, a, 1), a);
    PermutationDistinct(a, SortFrom(cmp, a, 1));
  }

  // ---------------------------------------------------------------- the table

  class Table<K(==), V> {
    const hash: K -> nat
    var head: Elem?<K, V>
    var tail: Elem?<K, V>
    var buckets: seq<Bucket<K, V>>
    var numBuckets: nat
    var log2: nat
    var numItems: nat
    var ideal: nat
    var nonideal: nat
    var ineffExpands: nat
    var noexpand: bool

    /** The items in application order, and the items of each bucket in chain order. */
    ghost var app: seq<Elem<K, V>>
    ghost var chains: seq<seq<Elem<K, V>>>

    /** The table exists exactly while it has items. */
    ghost predicate Valid()
      reads this, SetOf(app)
    {
      && ListOk()
      && (|app| == 0 ==> buckets == [] && chains == [] && numItems == numBuckets == 0)
      && (|app| > 0 ==> numItems == |app| && BucketsOk(SetOf(app)))
    }

    ghost predicate ListOk()
      reads this, SetOf(app)
    {
      && Distinct(app)
      && Listed(head, tail, app)
      && forall x <- app :: x.hashv == hash(x.key)
    }

    ghost predicate BucketsOk(items: set<Elem<K, V>>)
      reads this, items
    {
      && Buckets(buckets, chains, items)
      && |buckets| == |chains| == numBuckets == Pow2(log2)
    }

    /** Everything but the links of the elements. */
    ghost function Fields(): (Elem?<K, V>, Elem?<K, V>, seq<Bucket<K, V>>, (nat, nat, nat, nat, nat, nat, bool),
                              seq<Elem<K, V>>, seq<seq<Elem<K, V>>>)
      reads this
    {
      (head, tail, buckets, (numBuckets, log2, numItems, ideal, nonideal, ineffExpands, noexpand), app, chains)
    }

    constructor (hash: K -> nat)
      ensures Valid() && app == [] && this.hash == hash
    {
      this.hash := hash;
      head, tail, buckets, app, chains := null, null, [], [], [];
      numBuckets, log2, numItems, ideal, nonideal, ineffExpands, noexpand := 0, 0, 0, 0, 0, 0, false;
    }

    /** Links an element at the end of the application order. */
    method AppendList(e: Elem<K, V>)
      requires ListOk() && |app| > 0 && e !in app && e.hashv == hash(e.key) && BucketsOk(SetOf(app))
      modifies this`tail, this`app, e`prev, e`next, tail`next
      ensures ListOk() && app == old(app) + [e] && BucketsOk(SetOf(app) - {e}) && e.prev == old(tail)
    {
      hide Linked, Partition, Chained, Listed;
      HeadOfList(head, tail, app);
      LinkLast(e, head, tail, app, buckets, chains);
      tail := e;
      app := app + [e];
      assert SetOf(app) - {e} == SetOf(old(app));
    }

    /** Counts an element and links it at the front of its bucket chain. */
    method AddToTable(e: Elem<K, V>, b: nat)
      requires ListOk() && e in app && BucketsOk(SetOf(app) - {e}) && b == Bkt(e.hashv, numBuckets) < numBuckets
      modifies this`numItems, this`buckets, this`chains, SetOf(app)`hhPrev, SetOf(app)`hhNext
      ensures ListOk() && BucketsOk(SetOf(app)) && numItems == old(numItems) + 1
      ensures chains == old(chains)[b := [e] + old(chains)[b]]
      ensures buckets == old(buckets)[b := Bucket(e, old(buckets)[b].count + 1, old(buckets)[b].expandMult)]
    {
      hide Linked, Partition, Chained, Listed, Bkt, Members;
      PartitionApart(chains, SetOf(app) - {e});
      PartitionAdd(chains, SetOf(app), e, b);
      PartitionApart(chains[b := [e] + chains[b]], SetOf(app));
      numItems := numItems + 1;
      ghost var cs := chains[b := [e] + chains[b]];
      var bs := LinkFront(e, b, buckets, chains, head, tail, app);
      buckets := bs;
      chains := cs;
    }

    /** Moves every item into a fresh bucket array of the given size. */
    method Redistribute(n2: nat, ideal: nat) returns (bs: seq<Bucket<K, V>>, over: nat)
      requires ListOk() && BucketsOk(SetOf(app)) && n2 == Pow2(log2 + 1)
      modifies SetOf(app)`hhPrev, SetOf(app)`hhNext
      ensures ListOk() && Buckets(bs, NewChains(chains, log2 + 1), SetOf(app))
      ensures |bs| == n2 && over == Excess(bs, ideal)
      ensures ideal >= 1 ==> forall b :: 0 <= b < n2 ==> Raised(bs[b].count, bs[b].expandMult, ideal)
    {
      hide Partition, Bkt, Moved, Excess, MovedInto, Chained, Raised;
      bs := seq(n2, _ => Bucket(null, 0, 0));
      EmptyExcess(bs, ideal);
      EmptyMoved(bs, ideal);
      bs, over := MoveAll(buckets, chains, SetOf(app), bs, ideal, log2 + 1);
      MovedBuckets(bs, chains, SetOf(app), ideal, log2 + 1);
      if ideal >= 1 { AllRaised(bs, Flatten(chains), ideal); }
    }

    /** The thresholds that a doubling leaves, and when the next item crowds a bucket under them. */
    ghost predicate Thresholds()
      reads this
    {
      && ideal >= 1
      && forall b :: 0 <= b < |buckets| ==>
           && Raised(buckets[b].count, buckets[b].expandMult, ideal)
           && (Crowded(b) <==> !noexpand && buckets[b].count + 1 >= Threshold(buckets[b].count, ideal))
    }

    lemma ThresholdsAre()
      requires ideal >= 1
      requires forall b :: 0 <= b < |buckets| ==> Raised(buckets[b].count, buckets[b].expandMult, ideal)
      ensures Thresholds()
    {
      hide CeilDiv;
    }

    /** The doubling itself, once the new array has been allocated. */
    method Double()
      requires ListOk() && BucketsOk(SetOf(app)) && numItems == |app|
      modifies this`buckets, this`numBuckets, this`log2, this`ideal, this`nonideal, this`chains,
               SetOf(app)`hhPrev, SetOf(app)`hhNext
      ensures ListOk() && BucketsOk(SetOf(app))
      ensures numBuckets == 2 * old(numBuckets) && log2 == old(log2) + 1 && chains == NewChains(old(chains), log2)
      ensures ideal == CeilDiv(numItems, numBuckets) && nonideal == Excess(buckets, ideal)
      ensures numItems > 0 ==> Thresholds()
    {
      hide Partition, Linked, Counted, Members, Moved, Excess, MovedInto, CeilDiv, And, Shr;
      hide Listed, Distinct, Flatten, NewChains, Raised, Crowded, Thresholds;
      var n2 := numBuckets * 2;
      assert n2 == Pow2(log2 + 1);
      ideal := Shr(numItems, log2 + 1) + if And(numItems, n2 - 1) != 0 then 1 else 0;
      ShiftMaskIsCeil(numItems, log2 + 1);
      var bs, over := Redistribute(n2, ideal);
      ghost var cs := NewChains(chains, log2 + 1);
      buckets, numBuckets, log2, nonideal, chains := bs, n2, log2 + 1, over, cs;
      if numItems > 0 {
        CeilPositive(numItems, numBuckets);
        ThresholdsAre();
      }
    }

    /** Doubles the bucket array and moves every item over. When the allocation fails nothing changes. */
    method Expand(mallocOk: bool) returns (oomed: bool)
      requires Valid() && |app| > 0
      modifies this`buckets, this`numBuckets, this`log2, this`ideal, this`nonideal, this`ineffExpands, this`noexpand,
               this`chains, SetOf(app)`hhPrev, SetOf(app)`hhNext
      ensures Valid() && oomed == !mallocOk
      ensures oomed ==>
                && buckets == old(buckets) && chains == old(chains) && numBuckets == old(numBuckets) && log2 == old(log2)
                && ideal == old(ideal) && nonideal == old(nonideal)
                && ineffExpands == old(ineffExpands) && noexpand == old(noexpand)
      ensures !oomed ==>
                && numBuckets == 2 * old(numBuckets) && log2 == old(log2) + 1 && chains == NewChains(old(chains), log2)
                && ideal == CeilDiv(numItems, numBuckets) && nonideal == Excess(buckets, ideal)
                && ineffExpands == (if nonideal > numItems / 2 then old(ineffExpands) + 1 else 0)
                && noexpand == (old(noexpand) || ineffExpands > 1) && Thresholds()
    {
      hide Buckets, Listed, Distinct, Excess, CeilDiv, NewChains, Shr, Raised, Threshold;
      if !mallocOk { return true; }
      Double();
      ShrIsDiv(numItems, 1);
      ineffExpands := if nonideal > Shr(numItems, 1) then ineffExpands + 1 else 0;
      if ineffExpands > 1 { noexpand := true; }
      ThresholdsAre();
      return false;
    }

    /** Adding an element of this key will ask for memory: for the table itself, or for twice the buckets. */
    predicate NeedsMemory(key: K)
      requires Valid()
      reads this, SetOf(app)
    {
      HeadOfList(head, tail, app);
      head == null || Crowding(hash(key))
    }

    /** One more item of this hash value crowds its bucket. */
    predicate Crowding(hashv: nat)
      requires Valid() && |app| > 0
      reads this, SetOf(app)
    {
      BktInRange(hashv, log2);
      Crowded(Bkt(hashv, numBuckets))
    }

    /** The bucket of this hash value is crowded as it is, and doubling is not inhibited. */
    predicate Full(hashv: nat)
      requires Valid() && |app| > 0
      reads this, SetOf(app)
    {
      BktInRange(hashv, log2);
      var bkt := buckets[Bkt(hashv, numBuckets)];
      bkt.count >= (bkt.expandMult + 1) * CAPACITY_THRESHOLD && !noexpand
    }

    ghost predicate HasKey(key: K)
      reads this, SetOf(app)
    {
      exists x <- app :: x.key == key
    }

    /** Replacing will ask for memory: the element that is replaced leaves first, and takes the table along when it is
        the only one, or makes room in the bucket that the new one goes to. */
    ghost predicate ReplacingNeedsMemory(key: K)
      requires Valid()
      reads this, SetOf(app)
    {
      if HasKey(key) then |app| == 1 || Full(hash(key)) else NeedsMemory(key)
    }

    /** The first element makes the table. */
    method MakeTable(e: Elem<K, V>)
      requires e.hashv == hash(e.key)
      modifies this, e`prev, e`next
      ensures ListOk() && app == [e] && BucketsOk(SetOf(app) - {e}) && numItems == 0 && head != null
      ensures forall b :: 0 <= b < |buckets| ==> buckets[b] == Bucket(null, 0, 0)
      ensures Sizes() == (32, 5, 0, 0, 0, false)
    {
      hide Linked, Partition, Chained, Members, Counted, Bkt, Listed, Pow2, Distinct, SetOf;
      e.next := null;
      e.prev := null;
      tail := e;
      numBuckets, log2, numItems := INITIAL_BUCKETS, INITIAL_LOG2, 0;
      ideal, nonideal, ineffExpands, noexpand := 0, 0, 0, false;
      buckets := seq(INITIAL_BUCKETS, _ => Bucket(null, 0, 0));
      head := e;
      app, chains := [e], seq(INITIAL_BUCKETS, _ => []);
      InitialSize();
      EmptyBuckets(buckets, chains);
      Singleton(e);
    }

    /** The sizes the table keeps for itself. */
    ghost function Sizes(): (nat, nat, nat, nat, nat, bool)
      reads this
    {
      (numBuckets, log2, ideal, nonideal, ineffExpands, noexpand)
    }

    /** The state after a doubling, given the sizes before it. */
    ghost predicate Doubled(before: (nat, nat, nat, nat, nat, bool))
      reads this
    {
      && numBuckets == 2 * before.0 > 0 && log2 == before.1 + 1
      && ideal == CeilDiv(numItems, numBuckets) && nonideal == Excess(buckets, ideal)
      && ineffExpands == (if nonideal > numItems / 2 then before.4 + 1 else 0)
      && noexpand == (before.5 || ineffExpands > 1)
      && Thresholds()
    }

    /** The buckets once an item has been linked in front of bucket `b`. */
    ghost predicate OneMore(before: seq<Bucket<K, V>>, b: nat, e: Elem<K, V>)
      reads this
    {
      b < |before| && buckets == before[b := Bucket(e, before[b].count + 1, before[b].expandMult)]
    }

    /** Undoes an addition whose expansion failed, macro by macro: out of the bucket, the count put back, and then
        a regular deletion, which takes the count down again. */
    method RollBack(e: Elem<K, V>, b: nat)
      requires Valid() && |app| >= 2 && e == app[|app| - 1] && b == Bkt(e.hashv, numBuckets) < numBuckets
      requires |chains[b]| > 0 && chains[b][0] == e
      modifies this`buckets, this`head, this`tail, this`numItems, this`app, this`chains,
               SetOf(app)`hhPrev, SetOf(app)`hhNext, SetOf(app)`next, SetOf(app)`prev
      ensures Valid() && app == old(app)[..|old(app)| - 1] && numItems == old(numItems) - 1
      ensures chains == old(chains)[b := old(chains)[b][1..]]
      ensures head == old(head) && tail == old(e.prev)
      ensures buckets == old(buckets)[b := Bucket(old(e.hhNext), old(buckets)[b].count - 1, old(buckets)[b].expandMult)]
    {
      hide Linked, Partition, Chained, Listed, Bkt, Members;
      ghost var c := chains[b][1..];
      assert chains[b] == [e] + c;
      FirstLeaves(chains, SetOf(app), e, b);
      PartitionApart(chains, SetOf(app));
      EndsOfList(head, tail, app);
      var bs := UnlinkFront(e, b, buckets, chains, c, head, tail, app);
      UnlinkLast(e, b, bs, chains[b := c]);
    }

    /** The deletion that ends the roll-back: the element is last in the list and in no chain any more. */
    method UnlinkLast(e: Elem<K, V>, b: nat, bs: seq<Bucket<K, V>>, ghost cs: seq<seq<Elem<K, V>>>)
      requires ListOk() && |app| >= 2 && e == app[|app| - 1] && numItems == |app| && numBuckets == Pow2(log2)
      requires Linked(bs, cs) && Partition(cs, SetOf(app) - {e}) && |cs| == numBuckets && b < numBuckets
      requires forall i :: 0 <= i < |cs| ==> bs[i].count == |cs[i]| + if i == b then 1 else 0
      modifies this`buckets, this`head, this`tail, this`numItems, this`app, this`chains, SetOf(app)`next, SetOf(app)`prev
      ensures Valid() && app == old(app)[..|old(app)| - 1] && numItems == old(numItems) - 1 && chains == cs
      ensures head == old(head) && tail == old(e.prev)
      ensures buckets == bs[b := bs[b].(count := bs[b].count - 1)]
    {
      hide Linked, Partition, Chained, Listed, Bkt, Members;
      ghost var rest := app[..|app| - 1];
      assert rest + app[|app|..] == rest;
      assert SetOf(rest) == SetOf(app) - {e};
      PartitionApart(cs, SetOf(rest));
      EndsOfList(head, tail, app);
      var h, t := UnlinkNode(e, head, tail, app, |app| - 1, bs, cs);
      EndsOfList(h, t, rest);
      head, tail := h, t;
      buckets := bs[b := bs[b].(count := bs[b].count - 1)];
      numItems := numItems - 1;
      app := rest;
      chains := cs;
      CountsKeepLinks(bs, buckets, cs);
    }

    /** The four links of every element. */
    ghost function Links(): map<Elem<K, V>, (Elem?<K, V>, Elem?<K, V>, Elem?<K, V>, Elem?<K, V>)>
      reads this, SetOf(app)
    {
      map x | x in SetOf(app) :: (x.prev, x.next, x.hhPrev, x.hhNext)
    }

    /** The links are a function of the two orders. */
    lemma LinksDetermined()
      requires Valid()
      ensures Links() == LinksOf(app, chains)
    {
      hide Bkt, Listed, Chained, Partition, Distinct;
      if |app| > 0 { PartitionApart(chains, SetOf(app)); }
      forall x <- app ensures Links()[x] == LinksOf(app, chains)[x] {
        var b := BucketOf(chains, SetOf(app), x);
        ListLinks(head, tail, app, x);
        ChainLinks(buckets[b].head, chains[b], x);
      }
    }

    /** One more item fills the bucket to its threshold, and doubling is not inhibited. */
    predicate Crowded(b: nat)
      requires b < |buckets|
      reads this
    {
      buckets[b].count + 1 >= (buckets[b].expandMult + 1) * CAPACITY_THRESHOLD && !noexpand
    }

    /** Puts the last element of the list into its bucket, doubling the buckets if that crowds it. When the doubling
        fails the element leaves again, bucket and list. */
    method PutInTable(e: Elem<K, V>, b: nat, mallocOk: bool) returns (added: bool)
      requires ListOk() && |app| > 0 && e == app[|app| - 1] && BucketsOk(SetOf(app) - {e}) && numItems == |app| - 1
      requires b == Bkt(e.hashv, numBuckets) < numBuckets && (Crowded(b) ==> |app| >= 2)
      modifies this, SetOf(app)
      ensures Valid() && (added <==> mallocOk || !old(Crowded(b)))
      ensures added ==> app == old(app)
      ensures added ==> if old(Crowded(b)) then Doubled(old(Sizes()))
                        else Sizes() == old(Sizes()) && OneMore(old(buckets), b, e)
      ensures !added ==>
                && app == old(app)[..|old(app)| - 1] && head == old(head) && tail == old(e.prev)
                && buckets == old(buckets) && chains == old(chains) && numBuckets == old(numBuckets)
                && log2 == old(log2) && numItems == old(numItems) && ideal == old(ideal) && nonideal == old(nonideal)
                && ineffExpands == old(ineffExpands) && noexpand == old(noexpand)
    {
      hide Linked, Partition, Chained, Listed, Members, Counted, Distinct, NewChains, Excess, Bkt, Pow2, Thresholds;
      hide CeilDiv;
      FrontOfBucket(b);
      AddToTable(e, b);
      if buckets[b].count >= (buckets[b].expandMult + 1) * CAPACITY_THRESHOLD && !noexpand {
        var oomed := Expand(mallocOk);
        if oomed {
          FrontOfBucket(b);
          RollBack(e, b);
          assert chains == old(chains)[b := old(chains)[b]];
          return false;
        }
      }
      return true;
    }

    lemma FrontOfBucket(b: nat)
      requires |buckets| == |chains| && b < |chains| && Linked(buckets, chains)
      ensures buckets[b].head == At(chains[b], 0)
      ensures |chains[b]| > 0 ==> chains[b][0].hhNext == At(chains[b], 1)
    {
      assert Chained(buckets[b].head, chains[b]);
    }

    /** Adds an element at the end of the application order. When memory is needed and cannot be had, the element
        is not added and the table is exactly as before: same lists, counts and sizes, and every link of every
        element it holds. */
    method Add(e: Elem<K, V>, mallocOk: bool) returns (added: bool)
      requires Valid() && e !in app && e.hashv == hash(e.key)
      modifies this, SetOf(app), e
      ensures Valid()
      ensures added <==> mallocOk || !old(NeedsMemory(e.key))
      ensures added ==> app == old(app) + [e]
      ensures added ==>
                if old(app) == [] then
                  && Sizes() == (32, 5, 0, 0, 0, false) && |buckets| == 32
                  && forall b :: 0 <= b < 32 ==>
                       buckets[b] == if b == e.hashv % 32 then Bucket(e, 1, 0) else Bucket(null, 0, 0)
                else if old(Crowding(e.hashv)) then Doubled(old(Sizes()))
                else Sizes() == old(Sizes()) && OneMore(old(buckets), e.hashv % numBuckets, e)
      ensures !added ==> Fields() == old(Fields()) && Links() == old(Links())
    {
      hide Linked, Partition, Chained, Listed, Members, Counted, Distinct, LinksOf, Links, Thresholds, Excess, CeilDiv;
      hide Pow2;
      HeadOfList(head, tail, app);
      LinksDetermined();
      if head == null {
        if !mallocOk { return false; }
        MakeTable(e);
      } else {
        AppendList(e);
      }
      BktInRange(e.hashv, log2);
      added := PutInTable(e, Bkt(e.hashv, numBuckets), mallocOk);
      LinksDetermined();
    }

    /** With one hash value only, one bucket has all the items. */
    lemma OneHashValue(h: nat)
      requires Valid() && |app| > 0 && forall x <- app :: x.hashv == h
      ensures h % numBuckets < |buckets|
      ensures forall b :: 0 <= b < |buckets| ==> buckets[b].count == if b == h % numBuckets then |app| else 0
    {
      hide Bkt, Linked;
      BktInRange(h, log2);
      var b := h % numBuckets;
      assert forall i :: 0 <= i < |chains| && i != b ==> |chains[i]| == 0 by {
        forall i | 0 <= i < |chains| && |chains[i]| > 0 ensures i == b {
          var x := chains[i][0];
          assert x in SetOf(app) && x.hashv == h && Bkt(x.hashv, |chains|) == i;
        }
      }
      SameItems(chains[b], app) by {
        forall x <- chains[b] ensures x in app { assert x in SetOf(app); }
        forall x <- app ensures x in chains[b] { assert x in SetOf(app); }
      }
    }

    /** The first `i` of the elements have been added. */
    ghost predicate Piled(es: seq<Elem<K, V>>, i: nat, h: nat)
      requires i <= |es|
      reads this, SetOf(app)
    {
      && Valid() && app == es[..i]
      && (0 < i < 10 ==> Sizes() == (32, 5, 0, 0, 0, false) && |buckets| == 32 && buckets[h % 32].expandMult == 0)
      && (10 <= i ==> Sizes() == (64, 6, 1, 9, 1, false) && |buckets| == 64 && buckets[h % 64].expandMult == 9)
    }

    /** The next one needs memory for the table if it is the first, and for twice the buckets if it is the tenth. */
    lemma NextNeeds(es: seq<Elem<K, V>>, i: nat, h: nat)
      requires i < |es| == 11 && Piled(es, i, h) && forall e <- es :: e.hashv == hash(e.key) == h
      ensures NeedsMemory(es[i].key) <==> i == 0 || i == 9
      ensures i > 0 ==> (Crowding(h) <==> i == 9)
    {
      hide Linked, Partition, Members, Counted, Listed, Bkt, Distinct;
      HeadOfList(head, tail, app);
      assert es[i] in es;
      if i > 0 {
        assert forall x <- app :: x in es;
        OneHashValue(h);
        BktInRange(h, log2);
      }
    }

    method AddNext(es: seq<Elem<K, V>>, i: nat, h: nat)
      requires i < |es| == 11 && Piled(es, i, h) && Distinct(es) && forall e <- es :: e.hashv == hash(e.key) == h
      modifies this, SetOf(app), es[i]
      ensures Piled(es, i + 1, h)
    {
      hide Linked, Partition, Members, Counted, Listed, Links, Excess, Pow2, CeilDiv, Bkt, Crowding, Raised, Threshold;
      NextNeeds(es, i, h);
      assert es[i] in es;
      var added := Add(es[i], i == 0 || i == 9);
      assert es[..i] + [es[i]] == es[..i + 1];
      assert forall x <- app :: x in es;
      OneHashValue(h);
      if i == 9 {
        OneBucketExcess(buckets, ideal, h % 64);
        CeilIs(10, 64, 1);
        TenOfOne(buckets[h % 64].expandMult);
      }
    }

    /** What the raised threshold is for: eleven elements of one hash value, added to an empty table. The tenth doubles
        the buckets, which leaves all ten in one of them, and the threshold of that one goes up to a hundred: the
        eleventh is added without memory. */
    method AddEleven(es: seq<Elem<K, V>>, h: nat)
      requires Valid() && app == [] && |es| == 11 && Distinct(es) && forall e <- es :: e.hashv == hash(e.key) == h
      modifies this, SetOf(es)
      ensures Valid() && app == es && Sizes() == (64, 6, 1, 9, 1, false) && |buckets| == 64
      ensures forall b :: 0 <= b < 64 ==> buckets[b].count == if b == h % 64 then 11 else 0
      ensures buckets[h % 64].expandMult == 9
    {
      hide Valid;
      var i := 0;
      while i < 11
        invariant 0 <= i <= 11 && Piled(es, i, h)
      {
        assert es[i] in es;
        assert forall x <- app :: x in es;
        AddNext(es, i, h);
        i := i + 1;
      }
      assert es[..11] == es;
      OneHashValue(h);
    }

    /** Removes an element. With the last one the table goes too. */
    method Delete(e: Elem<K, V>)
      requires Valid() && e in app
      modifies this, SetOf(app)
      ensures Valid() && app == Without(old(app), e)
      ensures |app| == |old(app)| - 1
      ensures |app| > 0 ==> Crowding(e.hashv) == old(Full(e.hashv))
    {
      hide Linked, Partition, Chained, Listed, Members, Bkt, Counted;
      WithoutIs(app, e);
      ListLinks(head, tail, app, e);
      if e.prev == null && e.next == null {
        Alone(app, e);
        buckets, numBuckets, numItems := [], 0, 0;
        head, tail := null, null;
        app, chains := [], [];
        NoList<K, V>();
      } else {
        NotAlone(app, Pos(app, e));
        DeleteOne(e);
      }
    }

    lemma Items()
      requires Valid()
      ensures Distinct(app)
    {
    }

    /** Reading the list: its head, and the element after the head. */
    lemma Ends()
      requires Valid()
      ensures head == At(app, 0) && (|app| > 0 ==> app[0].next == At(app, 1))
    {
    }

    /** Deleting the head leaves the rest of the list. */
    method DeleteHead(e: Elem<K, V>)
      requires Valid() && |app| > 0 && app[0] == e
      modifies this, SetOf(app)
      ensures Valid() && app == old(app)[1..]
    {
      assert Pos(app, e) == 0 by { assert Distinct(app); }
      Delete(e);
    }

    /** Takes an element out of the list and out of its bucket; returns the new ends and the new buckets. */
    method Detach(e: Elem<K, V>)
      returns (h: Elem?<K, V>, t: Elem?<K, V>, bs: seq<Bucket<K, V>>, ghost cs: seq<seq<Elem<K, V>>>)
      requires ListOk() && BucketsOk(SetOf(app)) && |app| > 1 && e in app
      modifies SetOf(app)
      ensures Listed(h, t, Without(app, e)) && Buckets(bs, cs, SetOf(Without(app, e))) && |cs| == numBuckets
      ensures OneLess(buckets, bs, Bkt(e.hashv, numBuckets))
    {
      hide Linked, Partition, Chained, Listed, Members, Distinct, Bkt, Counted, SetOf, Without, Pow2;
      ghost var items, rest := SetOf(app), Without(app, e);
      SetOfContains(app, e);
      ghost var k;
      k, cs := ChainWithout(chains, items, e);
      WithoutIs(app, e);
      PartitionApart(chains, items);
      PartitionApart(cs, SetOf(rest));
      EndsOfList(head, tail, app);
      var b := Bkt(e.hashv, numBuckets);
      CountedWithout(buckets, chains, b, k, null);
      h, t := UnlinkNode(e, head, tail, app, Pos(app, e), buckets, chains);
      bs := UnlinkFromBucket(e, b, buckets, chains, k, h, t, rest);
      CountedWithout(buckets, chains, b, k, bs[b].head);
    }

    /** The bucket has one item less. */
    ghost predicate OneLess(before: seq<Bucket<K, V>>, after: seq<Bucket<K, V>>, b: nat) {
      && b < |before| && b < |after|
      && after[b].count == before[b].count - 1 && after[b].expandMult == before[b].expandMult
    }

    /** Removes one of several elements. */
    method DeleteOne(e: Elem<K, V>)
      requires ListOk() && BucketsOk(SetOf(app)) && numItems == |app| > 1 && e in app
      modifies this`head, this`tail, this`buckets, this`numItems, this`app, this`chains, SetOf(app)
      ensures ListOk() && BucketsOk(SetOf(app)) && numItems == |app| > 0 && app == Without(old(app), e)
      ensures OneLess(old(buckets), buckets, Bkt(e.hashv, numBuckets))
    {
      hide Buckets, Listed, Distinct, SetOf, Without, Pow2;
      WithoutIs(app, e);
      ghost var rest := Without(app, e);
      var h, t, bs;
      ghost var cs;
      h, t, bs, cs := Detach(e);
      BucketCount(bs, cs, SetOf(rest));
      head, tail, buckets, numItems, app, chains := h, t, bs, numItems - 1, rest, cs;
    }

    /** Sorts the application order. Nothing else changes, so every lookup is unchanged. */
    method Sort(cmp: (Elem<K, V>, Elem<K, V>) -> int)
      requires Valid()
      modifies this`head, this`tail, this`app, SetOf(app)`next, SetOf(app)`prev
      ensures Valid() && app == SortFrom(cmp, old(app), 1) && SetOf(app) == SetOf(old(app))
    {
      hide Partition, Chained, Listed, Members, Bkt, Counted, SetOf, Pow2, Distinct, Linked;
      HeadOfList(head, tail, app);
      SortKeepsItems(cmp, app);
      if head != null {
        ghost var sorted := SortFrom(cmp, app, 1);
        EndsAt(head, tail, app);
        var h, t := SortBesideBuckets(cmp, head, app, buckets, chains);
        head, tail := h, t;
        app := sorted;
      }
    }

    /** Replaces the element with the key of `e`, if there is one, by `e`, which goes to the end of the order.
        Deletion comes first: when the addition then fails, the replaced element is gone all the same. */
    method Replace(e: Elem<K, V>, mallocOk: bool) returns (replaced: Elem?<K, V>, added: bool)
      requires Valid() && e !in app && e.hashv == hash(e.key)
      modifies this, SetOf(app), e
      ensures Valid()
      ensures replaced == null ==> forall x <- old(app) :: x.key != e.key
      ensures replaced != null ==> replaced in old(app) && replaced.key == e.key
      ensures var rest := if replaced == null then old(app) else Without<Elem<K, V>>(old(app), replaced);
        app == if added then rest + [e] else rest
      ensures added <==> mallocOk || !old(ReplacingNeedsMemory(e.key))
    {
      hide Linked, Partition, Chained, Listed, Members, Bkt, Counted, Crowding, Full, Without;
      replaced := Find(e.key);
      if replaced != null {
        WithoutIs<Elem<K, V>>(app, replaced);
        Delete(replaced);
      }
      ghost var before := Fields();
      assert old(ReplacingNeedsMemory(e.key)) == NeedsMemory(e.key) by { HeadOfList(head, tail, app); }
      added := Add(e, mallocOk);
      assert !added ==> Fields().4 == before.4;
    }

    /** Walks the bucket of a hash value: none exactly when no element has the key; otherwise the first in its chain,
        which is a lookup rule only when the same key was added more than once. */
    method Find(key: K) returns (r: Elem?<K, V>)
      requires Valid()
      ensures r != null ==> r in app && r.key == key
      ensures r == null ==> forall x <- app :: x.key != key
      ensures r != null ==> exists b :: 0 <= b < |chains| && FirstWith(chains[b], key, r)
    {
      HeadOfList(head, tail, app);
      if head == null { return null; }
      var hashval := hash(key);
      BktInRange(hashval, log2);
      var b := Bkt(hashval, numBuckets);
      ghost var c, k := chains[b], 0;
      assert Chained(buckets[b].head, c);
      r := buckets[b].head;
      while r != null
        invariant 0 <= k <= |c| && r == At(c, k)
        invariant forall j :: 0 <= j < k ==> c[j].key != key
        decreases |c| - k
      {
        assert chains[b][k] == r;
        if r.hashv == hashval && r.key == key { return; }
        assert c[k].hhNext == At(c, k + 1);
        r := r.hhNext;
        k := k + 1;
      }
      forall x <- app ensures x.key != key {
        assert Bkt(x.hashv, numBuckets) == b ==> x in c;
      }
    }
  }
}
