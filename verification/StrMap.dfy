/** The case-insensitive string map over the hash table. */
module StrMap {
  import opened HashLinks
  import opened MergeSort
  import opened StrMapSpec
  import opened UtHash

  datatype Entry = Entry(name: string, val: string)

  datatype Status = Ok | OutOfMemory | NotFound

  type Node = Elem<string, Entry>

  function PairOf(e: Node): Pair {
    Pair(e.key, e.val.name, e.val.val)
  }

  function Pairs(a: seq<Node>): (r: seq<Pair>)
    ensures |r| == |a| && forall i :: 0 <= i < |a| ==> r[i] == PairOf(a[i])
  {
    seq(|a|, i requires 0 <= i < |a| => PairOf(a[i]))
  }

  /** A C string: the terminator is not part of it. */
  predicate CString(s: string) {
    forall c <- s :: c != '\0'
  }

  /** Lowers a terminated string in place, up to its terminator. */
  method ToAsciiLower(a: array<char>, ghost s: string)
    requires CString(s) && |s| < a.Length && a[..|s|] == s && a[|s|] == '\0'
    modifies a
    ensures a[..|s|] == Lower(s) && a[|s|..] == old(a[|s|..])
    ensures forall j :: 0 <= j < |s| ==> a[j] == if 'A' <= s[j] <= 'Z' then (s[j] as int + 32) as char else s[j]
  {
    forall j | 0 <= j < |s| ensures s[j] != '\0' { assert s[j] in s; }
    var i := 0;
    while a[i] != '\0'
      invariant 0 <= i <= |s|
      invariant forall j :: 0 <= j < i ==> a[j] == LowerChar(s[j])
      invariant forall j :: i <= j < |s| ==> a[j] == s[j]
      invariant a[|s|..] == old(a[|s|..]) && a[|s|] == '\0'
      decreases |s| - i
    {
      assert i < |s|;
      if 'A' <= a[i] <= 'Z' { a[i] := LowerChar(a[i]); }
      assert LowerChar(s[i]) != '\0';
      i := i + 1;
      assert forall j :: 0 <= j < a.Length - |s| ==> a[|s|..][j] == a[|s| + j];
    }
  }

  /** The key of a name: a duplicate of it, lowered. */
  method KeyOf(name: string) returns (key: string)
    requires CString(name)
    ensures key == Lower(name)
  {
    var a := new char[|name| + 1](i => if 0 <= i < |name| then name[i] else '\0');
    assert a[..|name|] == name;
    ToAsciiLower(a, name);
    key := a[..|name|];
  }

  // ---------------------------------------------------------------- the table's list as a list of pairs

  lemma PairsWithout(a: seq<Node>, e: Node)
    requires e in a
    ensures WithoutOne(Pairs(a), Pairs(Without(a, e)), e.key)
  {
    var i := Pos(a, e);
    assert RemovedAt(Pairs(a), Pairs(Without(a, e)), e.key, i);
  }

  lemma PairsUntouched(a: seq<Node>, key: string)
    requires forall x <- a :: x.key != key
    ensures WithoutOne(Pairs(a), Pairs(a), key) && LooksUp(Pairs(a), key, Absent)
  {
  }

  lemma PairsFind(a: seq<Node>, e: Node)
    requires e in a
    ensures LooksUp(Pairs(a), e.key, Present(e.val.val))
  {
    assert Pairs(a)[Pos(a, e)].key == e.key;
  }

  /** With distinct keys, taking out one pair of a key is dropping the key. */
  lemma DroppedPairs(s: seq<Pair>, r: seq<Pair>, name: string, val: string)
    requires WithoutOne(s, r, Lower(name)) && UniqueKeys(s)
    ensures r == Drop(s, Lower(name)) && UniqueKeys(r) && UniqueKeys(r + [Pair(Lower(name), name, val)])
  {
    OneChoice(s, r, Lower(name), Absent);
    DropIsUnique(s, name, val);
  }

  lemma HasPair(a: seq<Node>, e: Node)
    requires e in a
    ensures exists p <- Pairs(a) :: p.key == e.key
  {
    assert Pairs(a)[Pos(a, e)].key == e.key;
  }

  /** The comparison of nodes that a comparison of pairs makes. */
  function OnNodes(cmp: (Pair, Pair) -> int): (Node, Node) -> int {
    (x: Node, y: Node) => cmp(PairOf(x), PairOf(y))
  }

  lemma PairsCons(e: Node, a: seq<Node>)
    ensures Pairs([e] + a) == [PairOf(e)] + Pairs(a)
  {
  }

  lemma PairsSnoc(a: seq<Node>, e: Node)
    ensures Pairs(a + [e]) == Pairs(a) + [PairOf(e)]
  {
  }

  lemma FirstPairOf(a: seq<Node>)
    requires |a| > 0
    ensures Pairs(a)[0] == PairOf(a[0]) && Pairs(a)[1..] == Pairs(a[1..])
  {
  }

  /** Sorting nodes by a comparison of their pairs sorts the pairs. */
  lemma {:induction false} MergePairs(cmp: (Pair, Pair) -> int, a: seq<Node>, b: seq<Node>)
    ensures Pairs(Merge(OnNodes(cmp), a, b)) == Merge(cmp, Pairs(a), Pairs(b))
    decreases |a| + |b|
  {
    hide Pairs;
    if |a| > 0 && |b| > 0 {
      if OnNodes(cmp)(a[0], b[0]) <= 0 {
        MergePairs(cmp, a[1..], b);
        FirstPairOf(a);
        PairsCons(a[0], Merge(OnNodes(cmp), a[1..], b));
      } else {
        MergePairs(cmp, a, b[1..]);
        FirstPairOf(b);
        PairsCons(b[0], Merge(OnNodes(cmp), a, b[1..]));
      }
    }
  }

  lemma {:induction false} PassPairs(cmp: (Pair, Pair) -> int, a: seq<Node>, k: nat)
    requires k > 0
    ensures Pairs(Pass(OnNodes(cmp), a, k)) == Pass(cmp, Pairs(a), k)
    decreases |a|
  {
    hide Merge, Pass;
    var s := Pairs(a);
    NothingToPass(OnNodes(cmp), a[|a|..], k);
    NothingToPass(cmp, s[|s|..], k);
    if |a| > 0 {
      var x, y, rest := FirstPair(OnNodes(cmp), a, k);
      var x', y', rest' := FirstPair(cmp, s, k);
      assert Pairs(x) == x' && Pairs(y) == y' && Pairs(rest) == rest';
      MergePairs(cmp, x, y);
      PassPairs(cmp, rest, k);
    } else {
      assert a[|a|..] == a && s[|s|..] == s;
    }
  }

  lemma {:induction false} SortPairs(cmp: (Pair, Pair) -> int, a: seq<Node>, k: nat)
    requires k > 0
    ensures Pairs(SortFrom(OnNodes(cmp), a, k)) == SortFrom(cmp, Pairs(a), k)
    decreases if |a| > k then |a| - k else 0
  {
    hide Pass;
    PassPairs(cmp, a, k);
    if |a| > 2 * k { SortPairs(cmp, Pass(OnNodes(cmp), a, k), 2 * k); }
  }

  // ---------------------------------------------------------------- the map

  class Map {
    const table: Table<string, Entry>

    ghost predicate Valid()
      reads this, table, SetOf(table.app)
    {
      table.Valid()
    }

    /** The pairs in iteration order. */
    ghost function Contents(): seq<Pair>
      reads this, table
    {
      Pairs(table.app)
    }

    constructor (hash: string -> nat)
      ensures Valid() && Contents() == [] && fresh(table) && table.hash == hash
    {
      table := new Table(hash);
    }

    /** Storing a value under this name asks the table for memory: for itself, when no other pair stays in it, or to
        double the buckets. */
    ghost predicate SetNeedsMemory(name: string)
      requires Valid()
      reads this, table, SetOf(table.app)
    {
      table.ReplacingNeedsMemory(Lower(name))
    }

    /** When the map is empty, or holds the pair to be replaced alone, memory is needed. */
    lemma LoneKeyNeedsMemory(name: string)
      requires Valid()
      requires Contents() == [] || (|Contents()| == 1 && Contents()[0].key == Lower(name))
      ensures SetNeedsMemory(name)
    {
      if Contents() == [] {
        HeadOfList(table.head, table.tail, table.app);
      } else {
        assert table.app[0].key == Lower(name);
      }
    }

    /** Stores a value under a name: the pair of that key, if any, goes, and the new one is last in iteration order.
        `pairOk` and `tableOk` say whether the allocations of the pair and of the table succeed. A failure of the
        second kind is not reported: the old pair is gone and the new one is not stored. */
    method Set(name: string, val: string, pairOk: bool, tableOk: bool)
      returns (status: Status, ghost stored: bool, ghost rest: seq<Pair>)
      requires Valid() && CString(name)
      modifies table, SetOf(table.app)
      ensures Valid() && status == if pairOk then Ok else OutOfMemory
      ensures stored <==> pairOk && (tableOk || !old(SetNeedsMemory(name)))
      ensures if pairOk then WithoutOne(old(Contents()), rest, Lower(name)) else rest == old(Contents())
      ensures Contents() == rest + if stored then [Pair(Lower(name), name, val)] else []
      ensures old(UniqueKeys(Contents())) ==>
                && UniqueKeys(Contents())
                && Contents() == if !pairOk then old(Contents()) else if stored then Put(old(Contents()), name, val)
                                 else Drop(old(Contents()), Lower(name))
      ensures fresh(SetOf(table.app) - old(SetOf(table.app)))
    {
      hide Table.Valid, Without, Distinct, Table.ReplacingNeedsMemory, UniqueKeys, WithoutOne, Drop;
      if !pairOk { return OutOfMemory, false, Contents(); }
      assert forall x <- SetOf(table.app) :: old(allocated(x));
      var key := KeyOf(name);
      var pair := new Elem(key, Entry(name, val), table.hash(key));
      ghost var a := table.app;
      table.Items();
      var gone;
      gone, stored := table.Replace(pair, tableOk);
      ghost var left := if gone == null then a else Without<Node>(a, gone);
      rest := Pairs(left);
      if gone == null {
        PairsUntouched(a, key);
      } else {
        PairsWithout(a, gone);
        WithoutIs<Node>(a, gone);
      }
      if UniqueKeys(Pairs(a)) { DroppedPairs(Pairs(a), rest, name, val); }
      PairsSnoc(left, pair);
      status := Ok;
    }

    /** Adds a pair whatever is there already, so a key may come to be stored more than once. */
    method Add(name: string, val: string, pairOk: bool, tableOk: bool) returns (status: Status, ghost stored: bool)
      requires Valid() && CString(name)
      modifies table, SetOf(table.app)
      ensures Valid() && status == if pairOk then Ok else OutOfMemory
      ensures stored <==> pairOk && (tableOk || !old(table.NeedsMemory(Lower(name))))
      ensures Contents() == old(Contents()) + if pairOk && stored then [Pair(Lower(name), name, val)] else []
      ensures old(UniqueKeys(Contents())) ==>
                (UniqueKeys(Contents()) <==> !stored || forall p <- old(Contents()) :: p.key != Lower(name))
      ensures fresh(SetOf(table.app) - old(SetOf(table.app)))
    {
      hide Table.Valid, Table.NeedsMemory, Distinct, UniqueKeys;
      if !pairOk { return OutOfMemory, false; }
      assert forall x <- SetOf(table.app) :: old(allocated(x));
      var key := KeyOf(name);
      var pair := new Elem(key, Entry(name, val), table.hash(key));
      ghost var before := table.Fields();
      PairsSnoc(table.app, pair);
      if UniqueKeys(Contents()) { AddedUnique(Contents(), PairOf(pair)); }
      stored := table.Add(pair, tableOk);
      assert !stored ==> table.Fields().4 == before.4;
      status := Ok;
    }

    /** The node stored under a name, whatever its case. */
    method FindPair(name: string, keyOk: bool) returns (status: Status, pair: Elem?<string, Entry>)
      requires Valid() && CString(name)
      ensures status == OutOfMemory <==> !keyOk
      ensures status == Ok <==> pair != null
      ensures pair != null ==> pair in table.app && pair.key == Lower(name)
      ensures status == NotFound ==> forall x <- table.app :: x.key != Lower(name)
    {
      hide Table.Valid;
      if !keyOk { return OutOfMemory, null; }
      var key := KeyOf(name);
      assert forall x <- SetOf(table.app) :: old(allocated(x));
      pair := table.Find(key);
      status := if pair == null then NotFound else Ok;
    }

    /** A value stored under a name, or absent. */
    method Get(name: string, keyOk: bool) returns (val: Lookup)
      requires Valid() && CString(name)
      ensures if keyOk then LooksUp(Contents(), Lower(name), val) else val == Absent
      ensures UniqueKeys(Contents()) ==> val == if keyOk then Find(Contents(), Lower(name)) else Absent
    {
      hide Table.Valid, LooksUp, UniqueKeys;
      var status, pair := FindPair(name, keyOk);
      val := Absent;
      if status == Ok {
        PairsFind(table.app, pair);
        val := Present(pair.val.val);
      } else if keyOk {
        PairsUntouched(table.app, Lower(name));
      }
      if UniqueKeys(Contents()) { OneChoice(Contents(), Contents(), Lower(name), val); }
    }

    /** Removes a pair of a name, and no other. */
    method Rm(name: string, keyOk: bool) returns (status: Status)
      requires Valid() && CString(name)
      modifies table, SetOf(table.app)
      ensures Valid()
      ensures status == if !keyOk then OutOfMemory
                        else if forall p <- old(Contents()) :: p.key != Lower(name) then NotFound else Ok
      ensures if keyOk then WithoutOne(old(Contents()), Contents(), Lower(name)) else Contents() == old(Contents())
      ensures old(UniqueKeys(Contents())) ==>
                UniqueKeys(Contents()) && Contents() == if keyOk then Drop(old(Contents()), Lower(name)) else old(Contents())
      ensures SetOf(table.app) <= old(SetOf(table.app))
    {
      hide Table.Valid, Without, UniqueKeys, WithoutOne, Drop;
      var pair;
      status, pair := FindPair(name, keyOk);
      if status == OutOfMemory { return; }
      ghost var before := Contents();
      table.Items();
      if pair == null {
        PairsUntouched(table.app, Lower(name));
        status := NotFound;
      } else {
        PairsWithout(table.app, pair);
        HasPair(table.app, pair);
        WithoutIs<Node>(table.app, pair);
        table.Delete(pair);
        status := Ok;
      }
      if UniqueKeys(before) { DroppedPairs(before, Contents(), name, ""); }
    }

    /** Sorts the pairs. With distinct keys no lookup changes. */
    method Sort(cmp: (Pair, Pair) -> int)
      requires Valid()
      modifies table, SetOf(table.app)
      ensures Valid() && Contents() == SortFrom(cmp, old(Contents()), 1)
      ensures old(UniqueKeys(Contents())) ==>
                UniqueKeys(Contents()) && forall key :: Find(Contents(), key) == Find(old(Contents()), key)
      ensures SetOf(table.app) == old(SetOf(table.app))
    {
      hide Table.Valid, SortFrom, UniqueKeys;
      SortPairs(cmp, table.app, 1);
      if UniqueKeys(Contents()) { SortKeepsLookups(cmp, Contents()); }
      table.Sort(OnNodes(cmp));
    }

    method Count() returns (n: nat)
      requires Valid()
      ensures n == |Contents()|
    {
      HeadOfList(table.head, table.tail, table.app);
      n := if table.head != null then table.numItems else 0;
    }

    /** Empties the map, freeing every pair once, in iteration order. The next pair is read before the current one
        is deleted. */
    method Cleanup() returns (ghost freed: seq<Node>)
      requires Valid()
      modifies table, SetOf(table.app)
      ensures Valid() && Contents() == [] && freed == old(table.app)
    {
      hide Table.Valid;
      freed := [];
      table.Ends();
      var pair := table.head;
      var tmp: Elem?<string, Entry> := if pair != null then pair.next else null;
      ghost var a := table.app;
      ghost var i := 0;
      while pair != null
        invariant 0 <= i <= |a| && freed == a[..i] && table.app == a[i..] && Valid()
        invariant pair == At(a, i) && tmp == At(a, i + 1)
        decreases |a| - i
      {
        table.DeleteHead(pair);
        freed := freed + [pair];
        i := i + 1;
        table.Ends();
        pair, tmp := tmp, if tmp != null then tmp.next else null;
      }
    }
  }

  /** The first pair of a map is lost without memory for the table, and success is reported. */
  method FirstPairLost(hash: string -> nat, name: string, val: string) returns (m: Map, status: Status)
    requires CString(name)
    ensures fresh(m) && m.Valid() && m.Contents() == [] && status == Ok
  {
    hide Map.Valid, Map.SetNeedsMemory;
    m := new Map(hash);
    m.LoneKeyNeedsMemory(name);
    ghost var stored, rest;
    status, stored, rest := m.Set(name, val, true, false);
    assert Drop([], Lower(name)) == [];
  }

  /** Replacing the only pair loses it in the same way: afterwards neither value is there. */
  method OnlyPairLost(hash: string -> nat, name: string, val: string, val': string) returns (m: Map, status: Status)
    requires CString(name)
    ensures fresh(m) && m.Valid() && m.Contents() == [] && status == Ok
  {
    hide Map.Valid, Map.SetNeedsMemory;
    m := new Map(hash);
    ghost var stored, rest;
    status, stored, rest := m.Set(name, val, true, true);
    assert Drop([], Lower(name)) == [];
    m.LoneKeyNeedsMemory(name);
    status, stored, rest := m.Set(name, val', true, false);
    assert m.Contents() == Drop([Pair(Lower(name), name, val)], Lower(name));
  }

  /** One command, its allocations succeeding, does to the map what it does to the list of pairs. */
  method CarryOut(m: Map, c: Command)
    requires m.Valid() && UniqueKeys(m.Contents()) && (c.Cleanup? || CString(c.name))
    modifies m.table, SetOf(m.table.app)
    ensures m.Valid() && m.Contents() == Apply(old(m.Contents()), c)
    ensures fresh(SetOf(m.table.app) - old(SetOf(m.table.app)))
  {
    hide Map.Valid, Put, Drop, WithoutOne, UniqueKeys, Map.SetNeedsMemory;
    match c {
      case Set(name, val) =>
        var status;
        ghost var stored, rest;
        status, stored, rest := m.Set(name, val, true, true);
      case Rm(name) =>
        var status := m.Rm(name, true);
      case Cleanup =>
        ghost var freed := m.Cleanup();
    }
  }

  /** Carries out a history of commands on a new map, all allocations succeeding: the map then holds what the history
      says it holds. */
  method Replay(hash: string -> nat, h: seq<Command>) returns (m: Map)
    requires forall c <- h :: c.Cleanup? || CString(c.name)
    ensures fresh(m) && m.Valid() && m.Contents() == After(h)
  {
    hide Map.Valid, Put, Drop, InHistoryOrder, Decider, UniqueKeys;
    m := new Map(hash);
    var i := 0;
    assert h[..0] == [];
    while i < |h|
      invariant 0 <= i <= |h| && m.Valid() && m.Contents() == After(h[..i])
      invariant fresh(m) && fresh(m.table) && fresh(SetOf(m.table.app))
    {
      MapSemantics(h[..i]);
      assert h[..i + 1][..i] == h[..i];
      assert h[i] in h;
      CarryOut(m, h[i]);
      i := i + 1;
    }
    assert h[..|h|] == h;
  }
}
