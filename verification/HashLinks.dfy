/** The elements of the hash table and the two structures they are linked into: bucket chains and the list in
    application order. */
module HashLinks {
  class Elem<K(==), V> {
    const key: K
    const val: V
    const hashv: nat
    var prev: Elem?<K, V>
    var next: Elem?<K, V>
    var hhPrev: Elem?<K, V>
    var hhNext: Elem?<K, V>

    constructor (key: K, val: V, hashv: nat)
      ensures this.key == key && this.val == val && this.hashv == hashv
    {
      this.key, this.val, this.hashv := key, val, hashv;
      prev, next, hhPrev, hhNext := null, null, null, null;
    }
  }

  datatype Bucket<K(==), V> = Bucket(head: Elem?<K, V>, count: nat, expandMult: nat)

  ghost predicate Distinct<T>(s: seq<T>) {
    forall i, j :: 0 <= i < j < |s| ==> s[i] != s[j]
  }

  ghost function SetOf<T>(s: seq<T>): set<T> {
    set x | x in s
  }

  ghost function Pos<T>(s: seq<T>, x: T): (i: nat)
    requires x in s
    ensures i < |s| && s[i] == x
  {
    var i :| 0 <= i < |s| && s[i] == x;
    i
  }

  function At<K, V>(s: seq<Elem<K, V>>, i: int): Elem?<K, V> {
    if 0 <= i < |s| then s[i] else null
  }

  /** The bucket links of `c` make it the chain that starts at `h`. */
  ghost predicate Chained<K, V>(h: Elem?<K, V>, c: seq<Elem<K, V>>)
    reads SetOf(c)
  {
    && h == At(c, 0)
    && (forall i {:trigger c[i].hhNext} :: 0 <= i < |c| ==> c[i].hhNext == At(c, i + 1))
    && (forall i {:trigger c[i].hhPrev} :: 0 <= i < |c| ==> c[i].hhPrev == At(c, i - 1))
  }

  /** The application-order links of `a` make it the list from `h` to `t`. */
  ghost predicate Listed<K, V>(h: Elem?<K, V>, t: Elem?<K, V>, a: seq<Elem<K, V>>)
    reads SetOf(a)
  {
    && h == At(a, 0) && t == At(a, |a| - 1)
    && (forall i {:trigger a[i].next} :: 0 <= i < |a| ==> a[i].next == At(a, i + 1))
    && (forall i {:trigger a[i].prev} :: 0 <= i < |a| ==> a[i].prev == At(a, i - 1))
  }

  ghost function Members<K, V>(chains: seq<seq<Elem<K, V>>>): set<Elem<K, V>> {
    set i, x | 0 <= i < |chains| && x in chains[i] :: x
  }

  /** Every bucket heads its chain. */
  ghost predicate Linked<K, V>(buckets: seq<Bucket<K, V>>, chains: seq<seq<Elem<K, V>>>)
    reads Members(chains)
  {
    |buckets| == |chains| && forall b :: 0 <= b < |chains| ==> Chained(buckets[b].head, chains[b])
  }
}
