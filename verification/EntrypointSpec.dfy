/** Entry points of paths, the order of their names, and sorted lists of them. */
module EntrypointSpec {
  import opened Common

  datatype Status = Ok | Already | NotFound | OutOfMemory

  datatype Entry<V> = Entry(name: string, data: V)

  // ---------------------------------------------------------------- the order of names

  /** The sign of strcmp. */
  function Cmp(a: string, b: string): int {
    if |a| == 0 && |b| == 0 then 0
    else if |a| == 0 then -1
    else if |b| == 0 then 1
    else if a[0] < b[0] then -1
    else if a[0] > b[0] then 1
    else Cmp(a[1..], b[1..])
  }

  predicate Less(a: string, b: string) {
    Cmp(a, b) < 0
  }

  lemma {:induction false} CmpEqual(a: string, b: string)
    ensures Cmp(a, b) == 0 <==> a == b
    decreases |a|
  {
    if |a| > 0 && |b| > 0 && a[0] == b[0] {
      CmpEqual(a[1..], b[1..]);
      assert a == [a[0]] + a[1..] && b == [b[0]] + b[1..];
    }
  }

  lemma {:induction false} CmpFlips(a: string, b: string)
    ensures Cmp(a, b) == -Cmp(b, a)
    decreases |a|
  {
    if |a| > 0 && |b| > 0 && a[0] == b[0] { CmpFlips(a[1..], b[1..]); }
  }

  lemma {:induction false} LessTrans(a: string, b: string, c: string)
    requires Less(a, b) && Less(b, c)
    ensures Less(a, c)
    decreases |a|
  {
    if |a| > 0 && |b| > 0 && |c| > 0 && a[0] == b[0] == c[0] { LessTrans(a[1..], b[1..], c[1..]); }
  }

  /** The names agree on their first `k` characters; then `a` has ended and `b` has not, or the next of `a` is smaller. */
  ghost predicate PartAt(a: string, b: string, k: nat) {
    && k <= |a| && k <= |b| && a[..k] == b[..k]
    && ((k == |a| && |a| < |b|) || (k < |a| && k < |b| && a[k] < b[k]))
  }

  /** `a` is before `b` in the order of the dictionary. */
  ghost predicate Before(a: string, b: string) {
    exists k: nat :: PartAt(a, b, k)
  }

  /** The comparison is the order of the dictionary. */
  lemma {:induction false} LessIs(a: string, b: string)
    ensures Less(a, b) <==> Before(a, b)
    decreases |a|
  {
    if |a| > 0 && |b| > 0 && a[0] == b[0] {
      LessIs(a[1..], b[1..]);
      if Before(a[1..], b[1..]) {
        var k: nat :| PartAt(a[1..], b[1..], k);
        TailsPart(a, b, k);
      }
      if Before(a, b) {
        var k: nat :| PartAt(a, b, k);
        TailsPart(a, b, k - 1);
      }
    } else {
      if Less(a, b) { assert PartAt(a, b, 0); }
      PartStarts(a, b);
    }
  }

  lemma PartStarts(a: string, b: string)
    ensures forall k: nat :: PartAt(a, b, k) && k > 0 ==> |a| > 0 && |b| > 0 && a[0] == b[0]
  {
    forall k: nat | PartAt(a, b, k) && k > 0 ensures |a| > 0 && |b| > 0 && a[0] == b[0] {
      assert a[0] == a[..k][0] && b[0] == b[..k][0];
    }
  }

  lemma TailsPart(a: string, b: string, k: nat)
    requires |a| > 0 && |b| > 0 && a[0] == b[0]
    ensures PartAt(a[1..], b[1..], k) <==> PartAt(a, b, k + 1)
  {
    if k < |a| && k < |b| {
      assert a[..k + 1] == [a[0]] + a[1..][..k] && b[..k + 1] == [b[0]] + b[1..][..k];
    }
  }

  // ---------------------------------------------------------------- sorted lists

  /** The names are in the order of the dictionary, no two of them the same. */
  ghost predicate Ascending<V>(s: seq<Entry<V>>) {
    forall i, j :: 0 <= i < j < |s| ==> Before(s[i].name, s[j].name)
  }

  lemma IncreasingIs<V>(s: seq<Entry<V>>)
    ensures Increasing(s) <==> Ascending(s)
  {
    hide Less, Before;
    forall i, j | 0 <= i < j < |s| ensures Less(s[i].name, s[j].name) <==> Before(s[i].name, s[j].name) {
      LessIs(s[i].name, s[j].name);
    }
  }

  /** `after` is `before` and one entry more, which stands behind the names before its own and in front of the others. */
  ghost predicate PutIn<V>(before: seq<Entry<V>>, after: seq<Entry<V>>, e: Entry<V>) {
    exists k: nat :: PutAt(before, after, e, k)
  }

  ghost predicate PutAt<V>(before: seq<Entry<V>>, after: seq<Entry<V>>, e: Entry<V>, k: nat) {
    && k <= |before| && after == before[..k] + [e] + before[k..]
    && (forall i :: 0 <= i < k ==> Before(before[i].name, e.name))
    && (forall i :: k <= i < |before| ==> Before(e.name, before[i].name))
  }

  lemma InsertedIsPutIn<V>(s: seq<Entry<V>>, e: Entry<V>)
    requires Increasing(s) && !Named(s, e.name)
    ensures PutIn(s, Inserted(s, e), e)
  {
    hide Less, Before, Inserted;
    var k := InsertedIs(s, e);
    var r := Inserted(s, e);
    InsertedIncreases(s, e);
    forall i | 0 <= i < k ensures Before(s[i].name, e.name) {
      assert r[i] == s[i] && r[k] == e;
      LessIs(s[i].name, e.name);
    }
    forall i | k <= i < |s| ensures Before(e.name, s[i].name) { LessIs(e.name, s[i].name); }
    assert PutAt(s, r, e, k);
  }

  ghost predicate Increasing<V>(s: seq<Entry<V>>) {
    forall i, j :: 0 <= i < j < |s| ==> Less(s[i].name, s[j].name)
  }

  /** Non-decreasing, as a sort leaves it. */
  ghost predicate Ordered<V>(s: seq<Entry<V>>) {
    forall i, j :: 0 <= i < j < |s| ==> Cmp(s[i].name, s[j].name) <= 0
  }

  ghost predicate Named<V>(s: seq<Entry<V>>, name: string) {
    exists i :: 0 <= i < |s| && s[i].name == name
  }

  ghost function IndexOf<V>(s: seq<Entry<V>>, name: string): (i: nat)
    requires Named(s, name)
    ensures i < |s| && s[i].name == name
  {
    var i :| 0 <= i < |s| && s[i].name == name;
    i
  }

  /** The sorted list with one more entry. */
  ghost function Inserted<V>(s: seq<Entry<V>>, e: Entry<V>): seq<Entry<V>> {
    if |s| == 0 then [e]
    else if Less(e.name, s[|s| - 1].name) then Inserted(s[..|s| - 1], e) + [s[|s| - 1]]
    else s + [e]
  }

  /** A sorted list is the insertion of its last entry into the rest: what any sort does to a sorted list with one
      new entry behind it. */
  lemma {:induction false} InsertedIs<V>(s: seq<Entry<V>>, e: Entry<V>) returns (k: nat)
    ensures k <= |s| && Inserted(s, e) == s[..k] + [e] + s[k..]
    ensures (forall i :: k <= i < |s| ==> Less(e.name, s[i].name)) && (k > 0 ==> !Less(e.name, s[k - 1].name))
    decreases |s|
  {
    if |s| == 0 {
      k := 0;
    } else if Less(e.name, s[|s| - 1].name) {
      var n := |s| - 1;
      k := InsertedIs(s[..n], e);
      assert s[..n][..k] == s[..k] && s[..n][k..] + [s[n]] == s[k..];
    } else {
      k := |s|;
    }
  }

  /** Inserting a new name keeps the list increasing. */
  lemma InsertedIncreases<V>(s: seq<Entry<V>>, e: Entry<V>)
    requires Increasing(s) && !Named(s, e.name)
    ensures Increasing(Inserted(s, e))
  {
    var k := InsertedIs(s, e);
    var r := Inserted(s, e);
    forall i | 0 <= i < k ensures Less(s[i].name, e.name) {
      CmpFlips(s[k - 1].name, e.name);
      CmpEqual(s[k - 1].name, e.name);
      if i < k - 1 { LessTrans(s[i].name, s[k - 1].name, e.name); }
    }
    forall i, j | 0 <= i < j < |r| ensures Less(r[i].name, r[j].name) {
      assert r[i] == if i < k then s[i] else if i == k then e else s[i - 1];
      assert r[j] == if j < k then s[j] else if j == k then e else s[j - 1];
    }
  }

  /** Inserting the entries one by one. */
  ghost function SortedBy<V>(s: seq<Entry<V>>): (r: seq<Entry<V>>)
  {
    if |s| == 0 then [] else Inserted(SortedBy(s[..|s| - 1]), s[|s| - 1])
  }

  /** That is a sort. */
  lemma {:induction false} SortedBySorts<V>(s: seq<Entry<V>>)
    ensures Ordered(SortedBy(s)) && multiset(SortedBy(s)) == multiset(s)
    decreases |s|
  {
    hide Inserted;
    if |s| > 0 {
      var n := |s| - 1;
      SortedBySorts(s[..n]);
      InsertedKeeps(SortedBy(s[..n]), s[n]);
      assert s == s[..n] + [s[n]];
    }
  }

  lemma InsertedKeeps<V>(s: seq<Entry<V>>, e: Entry<V>)
    requires Ordered(s)
    ensures Ordered(Inserted(s, e)) && multiset(Inserted(s, e)) == multiset(s) + multiset{e}
  {
    hide Ordered, Inserted;
    var k := InsertedIs(s, e);
    InsertedOrdered(s, e, k);
    var a, b := s[..k], s[k..];
    assert s == a + b;
    assert multiset(a + [e] + b) == multiset(a) + multiset{e} + multiset(b);
  }

  lemma InsertedOrdered<V>(s: seq<Entry<V>>, e: Entry<V>, k: nat)
    requires Ordered(s) && k <= |s| && (forall i :: k <= i < |s| ==> Less(e.name, s[i].name))
    requires k > 0 ==> !Less(e.name, s[k - 1].name)
    ensures Ordered(s[..k] + [e] + s[k..])
  {
    var r := s[..k] + [e] + s[k..];
    forall i | 0 <= i < k ensures Cmp(s[i].name, e.name) <= 0 {
      CmpFlips(s[k - 1].name, e.name);
      if i < k - 1 { AtMostTrans(s[i].name, s[k - 1].name, e.name); }
    }
    forall i, j | 0 <= i < j < |r| ensures Cmp(r[i].name, r[j].name) <= 0 {
      assert r[i] == if i < k then s[i] else if i == k then e else s[i - 1];
      assert r[j] == if j < k then s[j] else if j == k then e else s[j - 1];
    }
  }

  lemma AtMostTrans(a: string, b: string, c: string)
    requires Cmp(a, b) <= 0 && Cmp(b, c) <= 0
    ensures Cmp(a, c) <= 0
  {
    CmpEqual(a, b);
    CmpEqual(b, c);
    if Less(a, b) && Less(b, c) { LessTrans(a, b, c); }
  }

  /** No name is before one that stands in front of it. */
  lemma OrderedIs<V>(s: seq<Entry<V>>)
    requires Ordered(s)
    ensures forall i, j :: 0 <= i < j < |s| ==> !Before(s[j].name, s[i].name)
  {
    hide Cmp, Before;
    forall i, j | 0 <= i < j < |s| ensures !Before(s[j].name, s[i].name) {
      LessIs(s[j].name, s[i].name);
      CmpFlips(s[i].name, s[j].name);
    }
  }

  /** An increasing list is sorted already, and one new entry behind it is all there is to insert. */
  lemma {:induction false} SortedBySame<V>(s: seq<Entry<V>>)
    requires Increasing(s)
    ensures SortedBy(s) == s
    decreases |s|
  {
    if |s| > 0 {
      var n := |s| - 1;
      SortedBySame(s[..n]);
      if n > 0 { CmpFlips(s[n - 1].name, s[n].name); }
      assert s == s[..n] + [s[n]];
    }
  }

  lemma SortedByNew<V>(s: seq<Entry<V>>, e: Entry<V>)
    requires Increasing(s)
    ensures SortedBy(s + [e]) == Inserted(s, e)
  {
    SortedBySame(s);
    assert (s + [e])[..|s|] == s;
  }

  /** The map from names to data that a list stands for. */
  ghost function MapOf<V>(s: seq<Entry<V>>): map<string, V> {
    if |s| == 0 then map[] else MapOf(s[..|s| - 1])[s[|s| - 1].name := s[|s| - 1].data]
  }

  lemma {:induction false} MapOfKeys<V>(s: seq<Entry<V>>, name: string)
    ensures name in MapOf(s) <==> Named(s, name)
    decreases |s|
  {
    if |s| > 0 {
      var n := |s| - 1;
      MapOfKeys(s[..n], name);
      NamedInserted(s[..n], s[n], n, name);
      assert s[..n][..n] + [s[n]] + s[..n][n..] == s;
    }
  }

  lemma {:induction false} MapOfAt<V>(s: seq<Entry<V>>, i: nat)
    requires Increasing(s) && i < |s|
    ensures s[i].name in MapOf(s) && MapOf(s)[s[i].name] == s[i].data
    decreases |s|
  {
    var n := |s| - 1;
    if i < n {
      MapOfAt(s[..n], i);
      CmpEqual(s[i].name, s[n].name);
    }
  }

  lemma MapOfInserted<V>(s: seq<Entry<V>>, e: Entry<V>)
    requires Increasing(s) && !Named(s, e.name)
    ensures MapOf(Inserted(s, e)) == MapOf(s)[e.name := e.data]
  {
    hide Inserted, Increasing, MapOf, Named, Less;
    var k := InsertedIs(s, e);
    InsertedIncreases(s, e);
    var r, m := Inserted(s, e), MapOf(s)[e.name := e.data];
    forall name ensures name in MapOf(r) <==> name in m {
      MapOfKeys(r, name);
      MapOfKeys(s, name);
      NamedInserted(s, e, k, name);
    }
    forall name | name in m ensures MapOf(r)[name] == m[name] {
      MapOfKeys(s, name);
      if name == e.name {
        assert r[k] == e;
        MapOfAt(r, k);
      } else {
        var i := IndexOf(s, name);
        MapOfAt(s, i);
        var j := if i < k then i else i + 1;
        assert r[j] == s[i];
        MapOfAt(r, j);
      }
    }
  }

  lemma NamedInserted<V>(s: seq<Entry<V>>, e: Entry<V>, k: nat, name: string)
    requires k <= |s|
    ensures Named(s[..k] + [e] + s[k..], name) <==> Named(s, name) || name == e.name
  {
    var r := s[..k] + [e] + s[k..];
    assert r[k] == e;
    if Named(r, name) {
      var j :| 0 <= j < |r| && r[j].name == name;
      assert j == k || s[if j < k then j else j - 1] == r[j];
    }
    if Named(s, name) {
      var i :| 0 <= i < |s| && s[i].name == name;
      assert r[if i < k then i else i + 1] == s[i];
    }
  }

  lemma RemovedIncreases<V>(s: seq<Entry<V>>, k: nat)
    requires Increasing(s) && k < |s|
    ensures Increasing(s[..k] + s[k + 1..])
  {
    var r := s[..k] + s[k + 1..];
    assert forall j :: 0 <= j < |r| ==> r[j] == s[if j < k then j else j + 1];
  }

  lemma MapOfRemoved<V>(s: seq<Entry<V>>, k: nat)
    requires Increasing(s) && k < |s|
    ensures var r := s[..k] + s[k + 1..]; Increasing(r) && MapOf(r) == MapOf(s) - {s[k].name}
  {
    hide Increasing, MapOf, Named;
    var r, m := s[..k] + s[k + 1..], MapOf(s) - {s[k].name};
    RemovedIncreases(s, k);
    forall name ensures name in MapOf(r) <==> name in m {
      MapOfKeys(r, name);
      MapOfKeys(s, name);
      NamedRemoved(s, k, name);
    }
    forall name | name in m ensures MapOf(r)[name] == m[name] {
      MapOfKeys(s, name);
      var i := IndexOf(s, name);
      MapOfAt(s, i);
      var j := if i < k then i else i - 1;
      assert r[j] == s[i];
      MapOfAt(r, j);
    }
  }

  lemma NamedRemoved<V>(s: seq<Entry<V>>, k: nat, name: string)
    requires Increasing(s) && k < |s|
    ensures Named(s[..k] + s[k + 1..], name) <==> Named(s, name) && name != s[k].name
  {
    var r := s[..k] + s[k + 1..];
    forall i | 0 <= i < |s| && i != k ensures s[i].name != s[k].name {
      CmpEqual(s[i].name, s[k].name);
      CmpFlips(s[i].name, s[k].name);
    }
    if Named(r, name) {
      var j :| 0 <= j < |r| && r[j].name == name;
      assert s[if j < k then j else j + 1] == r[j];
    }
    if Named(s, name) {
      var i :| 0 <= i < |s| && s[i].name == name;
      assert i == k || r[if i < k then i else i - 1] == s[i];
    }
  }

  // ---------------------------------------------------------------- entry points of paths

  function SkipSlashes(path: string): (n: nat)
    ensures n <= |path| && (forall i :: 0 <= i < n ==> path[i] == '/') && (n < |path| ==> path[n] != '/')
  {
    if |path| > 0 && path[0] == '/' then 1 + SkipSlashes(path[1..]) else 0
  }

  function SegmentLength(s: string): (n: nat)
    ensures n <= |s| && (forall i :: 0 <= i < n ==> s[i] != '/') && (n < |s| ==> s[n] == '/')
  {
    if |s| > 0 && s[0] != '/' then 1 + SegmentLength(s[1..]) else 0
  }

  /** A slash and the first segment of the path. */
  function Extract(path: string): string {
    var s := path[SkipSlashes(path)..];
    "/" + s[..SegmentLength(s)]
  }

  ghost predicate SlashFree(s: string) {
    forall i :: 0 <= i < |s| ==> s[i] != '/'
  }

  /** The entry point is a slash and a segment without slashes: the longest one after the leading slashes. It depends
      on nothing else, and it is its own entry point. */
  lemma ExtractSpec(path: string, slashes: nat, segment: string, rest: string)
    requires slashes <= |path| && path[slashes..] == segment + rest && SlashFree(segment)
    requires forall i :: 0 <= i < slashes ==> path[i] == '/'
    requires rest == "" || (rest[0] == '/' && segment != "")
    ensures Extract(path) == "/" + segment
  {
    var p := path[slashes..];
    assert segment != "" ==> p[0] == segment[0];
    SkipIs(path, slashes);
    assert rest != "" ==> p[|segment|] == rest[0];
    SegmentIs(p, |segment|);
    assert p[..|segment|] == segment;
  }

  lemma SkipIs(path: string, n: nat)
    requires n <= |path| && (forall i :: 0 <= i < n ==> path[i] == '/') && (n < |path| ==> path[n] != '/')
    ensures SkipSlashes(path) == n
  {
  }

  lemma SegmentIs(s: string, n: nat)
    requires n <= |s| && (forall i :: 0 <= i < n ==> s[i] != '/') && (n < |s| ==> s[n] == '/')
    ensures SegmentLength(s) == n
  {
  }

  lemma ExtractParts(path: string) returns (slashes: nat, segment: string, rest: string)
    ensures slashes <= |path| && path[slashes..] == segment + rest && SlashFree(segment)
    ensures forall i :: 0 <= i < slashes ==> path[i] == '/'
    ensures rest == "" || (rest[0] == '/' && segment != "")
    ensures Extract(path) == "/" + segment
  {
    slashes := SkipSlashes(path);
    var s := path[slashes..];
    var m := SegmentLength(s);
    segment, rest := s[..m], s[m..];
  }

  lemma ExtractIdempotent(path: string)
    ensures Extract(Extract(path)) == Extract(path)
    ensures |Extract(path)| > 0 && Extract(path)[0] == '/' && SlashFree(Extract(path)[1..])
  {
    var slashes, segment, rest := ExtractParts(path);
    var e := "/" + segment;
    assert e[1..] == segment + "";
    ExtractSpec(e, 1, segment, "");
  }

  // ---------------------------------------------------------------- histories

  /** A command on the index. `allocOk` says whether the name can be allocated, `growOk` whether the array can grow. */
  datatype Command<V> = Add(path: string, data: V, allocOk: bool, growOk: bool) | Rm(path: string, allocOk: bool) | Clear

  /** What a command reports. */
  function StatusOf<V>(m: map<string, V>, c: Command<V>): Status {
    match c
    case Add(path, _, allocOk, growOk) =>
      if !allocOk then OutOfMemory else if Extract(path) in m then Already else if growOk then Ok else OutOfMemory
    case Rm(path, allocOk) => if !allocOk then OutOfMemory else if Extract(path) in m then Ok else NotFound
    case Clear => Ok
  }

  /** What a command leaves; nothing when it has freed the index. */
  function Apply<V>(m: map<string, V>, c: Command<V>): Option<map<string, V>> {
    match c
    case Add(path, data, allocOk, growOk) =>
      if !allocOk || Extract(path) in m then Some(m) else if growOk then Some(m[Extract(path) := data]) else None
    case Rm(path, allocOk) => Some(if allocOk then m - {Extract(path)} else m)
    case Clear => Some(map[])
  }

  /** The map after a history of commands, from empty; none once the index has been freed. */
  function After<V>(h: seq<Command<V>>): Option<map<string, V>> {
    if |h| == 0 then Some(map[])
    else
      var before := After(h[..|h| - 1]);
      if before.None? then None else Apply(before.value, h[|h| - 1])
  }

  predicate Stores<V>(c: Command<V>, key: string) {
    c.Add? && c.allocOk && Extract(c.path) == key
  }

  predicate Erases<V>(c: Command<V>, key: string) {
    c.Clear? || (c.Rm? && c.allocOk && Extract(c.path) == key)
  }

  /** The addition that the entry of a key comes from: the first after the last command that erased the key. */
  ghost function Owner<V>(h: seq<Command<V>>, key: string): (r: Option<nat>)
    ensures r.Some? ==> r.value < |h| && Stores(h[r.value], key)
  {
    if |h| == 0 then None
    else
      var n := |h| - 1;
      var r := Owner(h[..n], key);
      if Erases(h[n], key) then None
      else if r.Some? then r
      else if Stores(h[n], key) then Some(n)
      else None
  }

  /** Every addition of the key before position `n` has been undone before it. */
  ghost predicate Undone<V>(h: seq<Command<V>>, key: string, n: nat)
    requires n <= |h|
  {
    forall j :: 0 <= j < n && Stores(h[j], key) ==> ErasedBetween(h, key, j, n)
  }

  ghost predicate ErasedBetween<V>(h: seq<Command<V>>, key: string, j: nat, n: nat)
    requires n <= |h|
  {
    exists k :: j < k < n && Erases(h[k], key)
  }

  /** That is what the owner is. */
  lemma {:induction false} OwnerIs<V>(h: seq<Command<V>>, key: string)
    ensures var r := Owner(h, key);
      if r.Some? then Undone(h, key, r.value) && forall k :: r.value < k < |h| ==> !Erases(h[k], key)
      else Undone(h, key, |h|)
    decreases |h|
  {
    hide Stores, Erases;
    if |h| > 0 {
      var n := |h| - 1;
      OwnerIs(h[..n], key);
      var r := Owner(h[..n], key);
      UndonePrefix(h, key, n, if r.Some? then r.value else n);
      if Erases(h[n], key) {
        forall j | 0 <= j < |h| && Stores(h[j], key) ensures ErasedBetween(h, key, j, |h|) {
          ErasesStoresNot(h[n], key);
          assert j < n;
        }
      } else if r.None? && !Stores(h[n], key) {
        forall j | 0 <= j < |h| && Stores(h[j], key) ensures ErasedBetween(h, key, j, |h|) {
          assert ErasedBetween(h, key, j, n);
        }
      }
    }
  }

  lemma ErasesStoresNot<V>(c: Command<V>, key: string)
    ensures !(Erases(c, key) && Stores(c, key))
  {
  }

  lemma UndonePrefix<V>(h: seq<Command<V>>, key: string, n: nat, m: nat)
    requires m <= n <= |h|
    ensures Undone(h[..n], key, m) <==> Undone(h, key, m)
  {
    hide Stores, Erases;
    forall j | 0 <= j < m ensures ErasedBetween(h[..n], key, j, m) <==> ErasedBetween(h, key, j, m) {
      assert forall k :: j < k < m ==> h[..n][k] == h[k];
    }
    assert forall j :: 0 <= j < m ==> h[..n][j] == h[j];
  }

  /** Over any history: a key is in the index exactly when some addition has stored it and nothing has erased it since,
      and its data is that of the first such addition, later ones having been refused. */
  lemma {:induction false} HistorySemantics<V>(h: seq<Command<V>>, key: string)
    requires After(h).Some?
    ensures key in After(h).value <==> Owner(h, key).Some?
    ensures key in After(h).value ==> h[Owner(h, key).value].Add? && After(h).value[key] == h[Owner(h, key).value].data
    decreases |h|
  {
    hide Extract;
    if |h| > 0 {
      var n := |h| - 1;
      HistorySemantics(h[..n], key);
      var r := Owner(h[..n], key);
      assert r.Some? ==> h[..n][r.value] == h[r.value];
    }
  }

  /** The index is gone exactly when, at some addition of a key that was not there, the array could not grow. */
  lemma {:induction false} GoneIff<V>(h: seq<Command<V>>)
    ensures After(h).None? <==>
              exists i :: 0 <= i < |h| && h[i].Add? && h[i].allocOk && !h[i].growOk && Owner(h[..i], Extract(h[i].path)).None?
    decreases |h|
  {
    hide Extract, Owner;
    if |h| > 0 {
      var n := |h| - 1;
      GoneIff(h[..n]);
      if After(h[..n]).Some? && h[n].Add? { HistorySemantics(h[..n], Extract(h[n].path)); }
      assert h[..n] == h[..|h| - 1];
      forall i | 0 <= i < n ensures h[..n][i] == h[i] && h[..n][..i] == h[..i] {}
    }
  }
}
