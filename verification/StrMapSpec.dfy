/** What a string map means: a list of pairs in iteration order, the commands on it, and what a history of commands
    leaves behind. */
module StrMapSpec {
  import opened HashSort
  import opened MergeSort

  datatype Pair = Pair(key: string, name: string, val: string)

  datatype Lookup = Absent | Present(val: string)

  datatype Command = Set(name: string, val: string) | Rm(name: string) | Cleanup

  function LowerChar(c: char): char {
    if 'A' <= c <= 'Z' then 'a' + (c - 'A') else c
  }

  /** The key under which a name is stored. */
  function Lower(s: string): (r: string)
    ensures |r| == |s| && forall i :: 0 <= i < |s| ==> r[i] == LowerChar(s[i])
  {
    seq(|s|, i requires 0 <= i < |s| => LowerChar(s[i]))
  }

  /** Two names share a key exactly when they agree up to the case of ASCII letters; a key is its own key. */
  lemma SameKey(s: string, t: string)
    ensures Lower(s) == Lower(t) <==> |s| == |t| && forall i :: 0 <= i < |s| ==>
              s[i] == t[i] || ('A' <= s[i] <= 'Z' && t[i] == s[i] + ' ') || ('A' <= t[i] <= 'Z' && s[i] == t[i] + ' ')
    ensures Lower(Lower(s)) == Lower(s)
  {
    if Lower(s) == Lower(t) {
      assert forall i :: 0 <= i < |s| ==> LowerChar(s[i]) == Lower(s)[i] == Lower(t)[i] == LowerChar(t[i]);
    } else if |s| == |t| {
      var i :| 0 <= i < |s| && Lower(s)[i] != Lower(t)[i];
    }
  }

  /** A lowered name holds no upper-case letter of ASCII, and differs from the name at those letters only, which have
      become the lower-case letters 32 places on. */
  lemma LowerIs(s: string)
    ensures |Lower(s)| == |s|
    ensures forall i :: 0 <= i < |s| ==> !('A' <= Lower(s)[i] <= 'Z') && (Lower(s)[i] != s[i] <==> 'A' <= s[i] <= 'Z')
    ensures forall i :: 0 <= i < |s| && 'A' <= s[i] <= 'Z' ==>
              'a' <= Lower(s)[i] <= 'z' && Lower(s)[i] as int == s[i] as int + 32
  {
    forall i | 0 <= i < |s| ensures Lower(s)[i] == LowerChar(s[i]) {}
  }

  // ---------------------------------------------------------------- commands on the list of pairs

  ghost predicate UniqueKeys(s: seq<Pair>) {
    forall i, j :: 0 <= i < j < |s| ==> s[i].key != s[j].key
  }

  function Find(s: seq<Pair>, key: string): Lookup {
    if |s| == 0 then Absent
    else if s[0].key == key then Present(s[0].val)
    else Find(s[1..], key)
  }

  function Drop(s: seq<Pair>, key: string): seq<Pair> {
    if |s| == 0 then []
    else if s[0].key == key then s[1..]
    else [s[0]] + Drop(s[1..], key)
  }

  function Put(s: seq<Pair>, name: string, val: string): seq<Pair> {
    Drop(s, Lower(name)) + [Pair(Lower(name), name, val)]
  }

  function Apply(s: seq<Pair>, c: Command): seq<Pair> {
    match c
    case Set(name, val) => Put(s, name, val)
    case Rm(name) => Drop(s, Lower(name))
    case Cleanup => []
  }

  /** The map after a history of commands, from empty. */
  function After(h: seq<Command>): seq<Pair> {
    if |h| == 0 then [] else Apply(After(h[..|h| - 1]), h[|h| - 1])
  }

  lemma {:induction false} FindIs(s: seq<Pair>, key: string)
    ensures Find(s, key).Absent? <==> forall i :: 0 <= i < |s| ==> s[i].key != key
    ensures UniqueKeys(s) ==> forall i :: 0 <= i < |s| && s[i].key == key ==> Find(s, key) == Present(s[i].val)
  {
    if |s| > 0 {
      FindIs(s[1..], key);
      assert s == [s[0]] + s[1..];
      assert forall i :: 0 < i < |s| ==> s[i] == s[1..][i - 1];
    }
  }

  /** Dropping a key takes out the one pair that has it. */
  lemma {:induction false} DropIs(s: seq<Pair>, key: string, i: nat)
    requires UniqueKeys(s) && i <= |s| && (i < |s| ==> s[i].key == key)
    requires i == |s| ==> forall j :: 0 <= j < |s| ==> s[j].key != key
    ensures Drop(s, key) == if i == |s| then s else s[..i] + s[i + 1..]
  {
    hide UniqueKeys;
    if |s| > 0 && s[0].key != key {
      TailUnique(s);
      assert i > 0;
      DropIs(s[1..], key, i - 1);
      if i < |s| { SkipInTail(s, i); } else { assert [s[0]] + s[1..] == s; }
    } else if |s| > 0 {
      FirstOfKey(s, key, i);
      assert s[..0] + s[1..] == s[1..];
    }
  }

  lemma TailUnique(s: seq<Pair>)
    requires UniqueKeys(s) && |s| > 0
    ensures UniqueKeys(s[1..])
  {
    assert forall j :: 0 < j < |s| ==> s[j] == s[1..][j - 1];
  }

  lemma FirstOfKey(s: seq<Pair>, key: string, i: nat)
    requires UniqueKeys(s) && |s| > 0 && s[0].key == key && i <= |s| && (i < |s| ==> s[i].key == key)
    requires i == |s| ==> forall j :: 0 <= j < |s| ==> s[j].key != key
    ensures i == 0
  {
  }

  lemma SkipInTail<T>(s: seq<T>, i: nat)
    requires 0 < i < |s|
    ensures [s[0]] + (s[1..][..i - 1] + s[1..][i..]) == s[..i] + s[i + 1..]
  {
  }

  ghost function IndexOf(s: seq<Pair>, key: string): (i: nat)
    ensures i <= |s| && (i < |s| ==> s[i].key == key)
    ensures i == |s| <==> forall j :: 0 <= j < |s| ==> s[j].key != key
  {
    if j :| 0 <= j < |s| && s[j].key == key then j else |s|
  }

  /** `r` is `s` without one of the pairs of a key, or `s` itself when there is none. Which one goes when a key has been
      added more than once depends on the buckets. */
  ghost predicate WithoutOne(s: seq<Pair>, r: seq<Pair>, key: string) {
    if forall i :: 0 <= i < |s| ==> s[i].key != key then r == s
    else exists i :: 0 <= i < |s| && RemovedAt(s, r, key, i)
  }

  ghost predicate RemovedAt(s: seq<Pair>, r: seq<Pair>, key: string, i: nat)
    requires i < |s|
  {
    s[i].key == key && r == s[..i] + s[i + 1..]
  }

  /** What a lookup may give: the value of a pair of the key, or absent exactly when there is none. */
  ghost predicate LooksUp(s: seq<Pair>, key: string, val: Lookup) {
    match val
    case Absent => forall i :: 0 <= i < |s| ==> s[i].key != key
    case Present(v) => exists i :: 0 <= i < |s| && s[i].key == key && s[i].val == v
  }

  /** With distinct keys there is no choice. */
  lemma OneChoice(s: seq<Pair>, r: seq<Pair>, key: string, val: Lookup)
    requires UniqueKeys(s)
    ensures WithoutOne(s, r, key) ==> r == Drop(s, key)
    ensures LooksUp(s, key, val) ==> val == Find(s, key)
  {
    FindIs(s, key);
    var k := IndexOf(s, key);
    DropIs(s, key, k);
  }

  lemma DropIsUnique(s: seq<Pair>, name: string, val: string)
    requires UniqueKeys(s)
    ensures UniqueKeys(Drop(s, Lower(name))) && UniqueKeys(Put(s, name, val))
  {
    hide UniqueKeys, Drop, Lower;
    var key := Lower(name);
    var i := IndexOf(s, key);
    DropIs(s, key, i);
    DropSome(s, key, i);
    AddedUnique(Drop(s, key), Pair(key, name, val));
  }

  lemma DropSome(s: seq<Pair>, key: string, i: nat)
    requires UniqueKeys(s) && i <= |s| && (i < |s| ==> s[i].key == key)
    requires i == |s| ==> forall j :: 0 <= j < |s| ==> s[j].key != key
    ensures var r := if i == |s| then s else s[..i] + s[i + 1..]; UniqueKeys(r) && forall q <- r :: q.key != key
  {
    if i < |s| {
      var r := s[..i] + s[i + 1..];
      forall j | 0 <= j < |r| ensures r[j] == s[if j < i then j else j + 1] {}
    }
  }

  lemma AddedUnique(s: seq<Pair>, p: Pair)
    requires UniqueKeys(s)
    ensures UniqueKeys(s + [p]) <==> forall q <- s :: q.key != p.key
  {
    if UniqueKeys(s + [p]) {
      forall q <- s ensures q.key != p.key {
        var i :| 0 <= i < |s| && s[i] == q;
        assert (s + [p])[i] == q && (s + [p])[|s|] == p;
      }
    }
  }

  // ---------------------------------------------------------------- what a history leaves behind

  /** The last command of the history that decides about a key: one past its position, or 0. */
  ghost function Decider(h: seq<Command>, key: string): (n: nat)
    ensures n <= |h|
    ensures n > 0 ==> Decides(h[n - 1], key)
    ensures forall i :: n <= i < |h| ==> !Decides(h[i], key)
  {
    if |h| == 0 then 0
    else if Decides(h[|h| - 1], key) then |h|
    else Decider(h[..|h| - 1], key)
  }

  predicate Decides(c: Command, key: string) {
    c.Cleanup? || Lower(c.name) == key
  }

  /** What the last deciding command says about a key. */
  ghost function Recent(h: seq<Command>, key: string): Lookup {
    var n := Decider(h, key);
    if n > 0 && h[n - 1].Set? then Present(h[n - 1].val) else Absent
  }

  /** The keys that some set command of the history has stored and nothing has removed since. */
  ghost function LiveKeys(h: seq<Command>): set<string> {
    set i | 0 <= i < |h| && h[i].Set? && Recent(h, Lower(h[i].name)).Present? :: Lower(h[i].name)
  }

  /** The pair carries the name and value of the set command that decides about its key. */
  ghost predicate Placed(h: seq<Command>, p: Pair) {
    var n := Decider(h, p.key);
    n > 0 && h[n - 1].Set? && p == Pair(Lower(h[n - 1].name), h[n - 1].name, h[n - 1].val)
  }

  /** The pairs are in the order of the last set command for their key, with the name and value of that command. */
  ghost predicate InHistoryOrder(h: seq<Command>, s: seq<Pair>) {
    && (forall i :: 0 <= i < |s| ==> Placed(h, s[i]))
    && (forall i, j :: 0 <= i < j < |s| ==> Decider(h, s[i].key) < Decider(h, s[j].key))
  }

  lemma PlacedStep(h: seq<Command>, c: Command, p: Pair)
    requires Placed(h, p) && !Decides(c, p.key)
    ensures Placed(h + [c], p) && Decider(h + [c], p.key) == Decider(h, p.key)
  {
    DeciderStep(h, c, p.key);
  }

  lemma PlacedLast(h: seq<Command>, c: Command)
    requires c.Set?
    ensures var p := Pair(Lower(c.name), c.name, c.val); Placed(h + [c], p) && Decider(h + [c], p.key) == |h| + 1
  {
    DeciderStep(h, c, Lower(c.name));
  }

  lemma DeciderStep(h: seq<Command>, c: Command, key: string)
    ensures Decider(h + [c], key) == if Decides(c, key) then |h| + 1 else Decider(h, key)
  {
    assert (h + [c])[..|h|] == h;
  }

  lemma {:induction false} AfterHistory(h: seq<Command>)
    ensures InHistoryOrder(h, After(h))
    ensures Complete(h, After(h))
    decreases |h|
  {
    if |h| > 0 {
      var h', c := h[..|h| - 1], h[|h| - 1];
      assert h == h' + [c];
      AfterHistory(h');
      HistoryStep(h', c, After(h'));
    }
  }

  lemma OrderedUnique(h: seq<Command>, s: seq<Pair>)
    requires InHistoryOrder(h, s)
    ensures UniqueKeys(s)
  {
    forall i, j | 0 <= i < j < |s| ensures s[i].key != s[j].key {
      assert Decider(h, s[i].key) < Decider(h, s[j].key);
    }
  }

  /** Every key that is present has a pair. */
  ghost predicate Complete(h: seq<Command>, s: seq<Pair>) {
    forall key :: Recent(h, key).Present? ==> IndexOf(s, key) < |s|
  }

  lemma HistoryStep(h: seq<Command>, c: Command, s: seq<Pair>)
    requires InHistoryOrder(h, s) && Complete(h, s)
    ensures InHistoryOrder(h + [c], Apply(s, c)) && Complete(h + [c], Apply(s, c))
  {
    hide InHistoryOrder, Drop, Decider, UniqueKeys;
    var g, r := h + [c], Apply(s, c);
    OrderedUnique(h, s);
    if c.Cleanup? {
      assert InHistoryOrder(g, r) by { NothingInOrder(g); }
    } else {
      DroppedHistory(h, c, s);
    }
    forall key | Recent(g, key).Present? ensures IndexOf(r, key) < |r| {
      DeciderStep(h, c, key);
      if !c.Cleanup? {
        if key == Lower(c.name) {
          assert c.Set? ==> r[|r| - 1].key == key;
        } else {
          var p := s[IndexOf(s, key)];
          DropKeeps(s, Lower(c.name), IndexOf(s, key));
          assert p in r && p.key == key;
        }
      }
    }
  }

  lemma NothingInOrder(h: seq<Command>)
    ensures InHistoryOrder(h, [])
  {
  }

  /** A pair with another key survives the dropping of a key. */
  lemma DropKeeps(s: seq<Pair>, key: string, i: nat)
    requires UniqueKeys(s) && i < |s| && s[i].key != key
    ensures s[i] in Drop(s, key)
  {
    var d := IndexOf(s, key);
    DropIs(s, key, d);
    assert Drop(s, key)[if i < d then i else i - 1] == s[i];
  }

  /** What is left after dropping a key, position by position. */
  lemma Dropped(s: seq<Pair>, key: string, i: nat) returns (j: nat)
    requires UniqueKeys(s) && i < |Drop(s, key)|
    ensures j < |s| && Drop(s, key)[i] == s[j] && s[j].key != key
    ensures j == if i < IndexOf(s, key) then i else i + 1
  {
    var d := IndexOf(s, key);
    DropIs(s, key, d);
    j := if i < d then i else i + 1;
  }

  /** What stays when the key of a command is dropped is in order and untouched by that command. */
  lemma DroppedInOrder(h: seq<Command>, c: Command, s: seq<Pair>)
    requires InHistoryOrder(h, s) && UniqueKeys(s) && !c.Cleanup?
    ensures InHistoryOrder(h + [c], Drop(s, Lower(c.name)))
    ensures forall p <- Drop(s, Lower(c.name)) :: Decider(h + [c], p.key) <= |h|
  {
    hide Drop, Decider, UniqueKeys, Placed;
    var k, g := Lower(c.name), h + [c];
    var t := Drop(s, k);
    forall i | 0 <= i < |t| ensures Placed(g, t[i]) && Decider(g, t[i].key) == Decider(h, t[i].key) <= |h| {
      var j := Dropped(s, k, i);
      PlacedStep(h, c, s[j]);
    }
    forall i, j | 0 <= i < j < |t| ensures Decider(g, t[i].key) < Decider(g, t[j].key) {
      var i' := Dropped(s, k, i);
      var j' := Dropped(s, k, j);
    }
  }

  lemma DroppedHistory(h: seq<Command>, c: Command, s: seq<Pair>)
    requires InHistoryOrder(h, s) && UniqueKeys(s) && !c.Cleanup?
    ensures InHistoryOrder(h + [c], Apply(s, c))
  {
    hide Drop, Decider, UniqueKeys, Placed;
    DroppedInOrder(h, c, s);
    if c.Set? { PlacedLast(h, c); }
  }

  /** Over any history: a lookup under any spelling returns the value most recently set under any spelling, unless a
      removal came later; the pairs are as many as the live keys; they iterate in the order of their last set. */
  lemma MapSemantics(h: seq<Command>)
    ensures forall name :: Find(After(h), Lower(name)) == Recent(h, Lower(name))
    ensures |After(h)| == |LiveKeys(h)|
    ensures InHistoryOrder(h, After(h)) && UniqueKeys(After(h))
  {
    var s := After(h);
    AfterHistory(h);
    OrderedUnique(h, s);
    forall key ensures Find(s, key) == Recent(h, key) {
      FindIs(s, key);
      var i := IndexOf(s, key);
    }
    KeyCount(s);
    forall key ensures key in (set i | 0 <= i < |s| :: s[i].key) <==> key in LiveKeys(h) {
      var i := IndexOf(s, key);
      if i < |s| {
        var n := Decider(h, key);
        assert h[n - 1].Set? && Lower(h[n - 1].name) == key;
      }
    }
    assert (set i | 0 <= i < |s| :: s[i].key) == LiveKeys(h);
  }

  lemma {:induction false} KeyCount(s: seq<Pair>)
    requires UniqueKeys(s)
    ensures |set i | 0 <= i < |s| :: s[i].key| == |s|
    decreases |s|
  {
    if |s| > 0 {
      var n := |s| - 1;
      KeyCount(s[..n]);
      var a, b := set i | 0 <= i < n :: s[..n][i].key, set i | 0 <= i < |s| :: s[i].key;
      assert b == a + {s[n].key};
      assert s[n].key !in a;
    }
  }

  /** Sorting the pairs, by whatever comparison, changes no lookup and no count. */
  lemma SortKeepsLookups(cmp: (Pair, Pair) -> int, s: seq<Pair>)
    requires UniqueKeys(s)
    ensures var t := SortFrom(cmp, s, 1); UniqueKeys(t) && |t| == |s| && forall key :: Find(t, key) == Find(s, key)
  {
    var t := SortFrom(cmp, s, 1);
    SortPermutes(cmp, s, 1);
    SameMembers(t, s);
    PermutationDistinct(s, t);
    forall i, j | 0 <= i < j < |t| ensures t[i].key != t[j].key {
      assert t[i] in s && t[j] in s && t[i] != t[j];
    }
    forall key ensures Find(t, key) == Find(s, key) {
      FindIs(s, key);
      FindIs(t, key);
      var i, j := IndexOf(s, key), IndexOf(t, key);
      assert i < |s| ==> s[i] in t;
      assert j < |t| ==> t[j] in s;
    }
  }
}
