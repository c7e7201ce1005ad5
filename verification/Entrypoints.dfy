/** The sorted index of entry points. */
module Entrypoints {
  import opened Common
  import opened EntrypointSpec

  /** Cuts the entry point out of a path. */
  method ExtractEntrypoint(path: string, allocOk: bool) returns (ok: bool, name: string)
    ensures ok == allocOk && (ok ==> name == Extract(path))
  {
    hide SkipSlashes, SegmentLength;
    var start := 0;
    while start < |path| && path[start] == '/'
      invariant start <= |path| && forall i :: 0 <= i < start ==> path[i] == '/'
    {
      start := start + 1;
    }
    SkipIs(path, start);
    ghost var s := path[start..];
    var end := start;
    while end < |path|
      invariant start <= end <= |path| && forall i :: 0 <= i < end - start ==> s[i] != '/'
    {
      if path[end] == '/' { break; }
      assert s[end - start] == path[end];
      end := end + 1;
    }
    SegmentIs(s, end - start);
    var len := end - start + 1;
    if !allocOk { return false, []; }
    var str := new char[len + 1];
    Print(str, path[start..]);
    str[len] := '\0';
    return true, str[..len];
  }

  /** What snprintf makes of a slash and a string in a buffer: as much as fits before the terminator. */
  method Print(str: array<char>, s: string)
    requires str.Length > 1
    modifies str
    ensures var n := if |s| < str.Length - 2 then |s| else str.Length - 2;
      str[..n + 1] == "/" + s[..n] && str[n + 1] == '\0'
  {
    var n := if |s| < str.Length - 2 then |s| else str.Length - 2;
    str[0] := '/';
    forall i | 0 <= i < n { str[i + 1] := s[i]; }
    str[n + 1] := '\0';
  }

  /** Binary search over the first entries of an array, as bsearch goes about it. */
  method BSearch<V>(a: array<Entry<V>>, key: string) returns (found: bool, at: nat)
    requires Increasing(a[..])
    ensures found <==> Named(a[..], key)
    ensures found ==> at < a.Length && a[at].name == key
  {
    var low, high := 0, a.Length;
    while low < high
      invariant 0 <= low <= high <= a.Length
      invariant forall i :: 0 <= i < low ==> Less(a[i].name, key)
      invariant forall i :: high <= i < a.Length ==> Less(key, a[i].name)
    {
      var mid := (low + high) / 2;
      var c := Cmp(key, a[mid].name);
      CmpEqual(key, a[mid].name);
      if c < 0 {
        forall i | mid < i < high ensures Less(key, a[i].name) {
          assert a[..][mid] == a[mid] && a[..][i] == a[i];
          LessTrans(key, a[mid].name, a[i].name);
        }
        high := mid;
      } else if c > 0 {
        CmpFlips(key, a[mid].name);
        forall i | low <= i < mid ensures Less(a[i].name, key) {
          assert a[..][mid] == a[mid] && a[..][i] == a[i];
          LessTrans(a[i].name, a[mid].name, key);
        }
        low := mid + 1;
      } else {
        assert a[..][mid].name == key;
        return true, mid;
      }
    }
    forall i | 0 <= i < a.Length ensures a[i].name != key {
      CmpEqual(key, a[i].name);
      CmpFlips(key, a[i].name);
    }
    return false, 0;
  }

  /** A sort in the place of qsort. */
  method QSort<V>(a: array<Entry<V>>)
    modifies a
    ensures a[..] == SortedBy(old(a[..]))
    ensures multiset(a[..]) == multiset(old(a[..]))
    ensures forall i, j :: 0 <= i < j < a.Length ==> !Before(a[j].name, a[i].name)
  {
    hide Before;
    ghost var was := a[..];
    var i := 0;
    while i < a.Length
      invariant 0 <= i <= a.Length && a[..i] == SortedBy(was[..i]) && a[i..] == was[i..]
    {
      assert was[..i + 1][..i] == was[..i] && a[i] == a[i..][0] == was[i];
      InsertLast(a, i);
      assert a[i + 1..] == was[i..][1..];
      i := i + 1;
    }
    assert was[..i] == was && a[..i] == a[..];
    SortedBySorts(was);
    OrderedIs(a[..]);
    assert forall i :: 0 <= i < a.Length ==> a[..][i] == a[i];
  }

  /** Moves the entry at `i` down to its place among the sorted entries before it. */
  method InsertLast<V>(a: array<Entry<V>>, i: nat)
    requires i < a.Length
    modifies a
    ensures a[..i + 1] == Inserted(old(a[..i]), old(a[i])) && a[i + 1..] == old(a[i + 1..])
  {
    hide Less, Inserted, InsertedBelow, Shifted;
    ghost var p, e, rest := a[..i], a[i], a[i + 1..];
    var j := i;
    InsertAll(p, e);
    ShiftedIs(p, i, e, rest);
    assert a[..] == p + [e] + rest;
    while j > 0 && Less(a[j].name, a[j - 1].name)
      invariant 0 <= j <= i && a[..] == Shifted(p, j, e, rest) && Inserted(p, e) == InsertedBelow(p, j, e)
    {
      ShiftedIs(p, j, e, rest);
      InsertStep(p, j, e);
      a[j], a[j - 1] := a[j - 1], a[j];
      j := j - 1;
    }
    ShiftedIs(p, j, e, rest);
    InsertStep(p, j, e);
    assert a[..i + 1] == a[..][..i + 1] && a[i + 1..] == a[..][i + 1..];
  }

  /** The array when the entry has come down to `j`. */
  ghost function Shifted<V>(p: seq<Entry<V>>, j: nat, e: Entry<V>, rest: seq<Entry<V>>): seq<Entry<V>>
    requires j <= |p|
  {
    p[..j] + [e] + p[j..] + rest
  }

  lemma ShiftedIs<V>(p: seq<Entry<V>>, j: nat, e: Entry<V>, rest: seq<Entry<V>>)
    requires j <= |p|
    ensures var s := Shifted(p, j, e, rest);
      && |s| == |p| + 1 + |rest| && s[j] == e && s[..|p| + 1] == p[..j] + [e] + p[j..] && s[|p| + 1..] == rest
      && (j == |p| ==> s == p + [e] + rest)
      && (j > 0 ==> s[j - 1] == p[j - 1] && s[j := p[j - 1]][j - 1 := e] == Shifted(p, j - 1, e, rest))
  {
  }

  /** The entry inserted among the first `j`, and the others behind. */
  ghost function InsertedBelow<V>(p: seq<Entry<V>>, j: nat, e: Entry<V>): seq<Entry<V>>
    requires j <= |p|
  {
    Inserted(p[..j], e) + p[j..]
  }

  lemma InsertAll<V>(p: seq<Entry<V>>, e: Entry<V>)
    ensures InsertedBelow(p, |p|, e) == Inserted(p, e)
  {
    assert p[..|p|] == p;
  }

  /** Inserting among the first `j` entries: past the last of them, or behind it. */
  lemma InsertStep<V>(p: seq<Entry<V>>, j: nat, e: Entry<V>)
    requires j <= |p|
    ensures j > 0 && Less(e.name, p[j - 1].name) ==> InsertedBelow(p, j, e) == InsertedBelow(p, j - 1, e)
    ensures j == 0 || !Less(e.name, p[j - 1].name) ==> InsertedBelow(p, j, e) == p[..j] + [e] + p[j..]
  {
    if j > 0 { assert p[..j][..j - 1] == p[..j - 1] && [p[j - 1]] + p[j..] == p[j - 1..]; }
  }

  class Index<V> {
    /** The array holds exactly the entries; there is none when there are no entries. */
    var list: array?<Entry<V>>
    var count: nat
    /** False once a failed growth has freed the whole index. */
    ghost var alive: bool

    ghost function Entries(): seq<Entry<V>>
      reads this, list
    {
      if list == null then [] else list[..]
    }

    ghost predicate Valid()
      reads this, list
    {
      alive && Increasing(Entries()) && (if list == null then count == 0 else count == list.Length > 0)
    }

    ghost function Map(): map<string, V>
      reads this, list
    {
      MapOf(Entries())
    }

    constructor ()
      ensures Valid() && Map() == map[] && list == null
    {
      list, count, alive := null, 0, true;
    }

    /** Looks a path up by its entry point. */
    method Find(path: string, allocOk: bool) returns (status: Status, at: nat)
      requires Valid()
      ensures status == if !allocOk then OutOfMemory else if Extract(path) in Map() then Ok else NotFound
      ensures status == Ok ==> list != null && at < list.Length && list[at].name == Extract(path)
                               && list[at].data == Map()[Extract(path)]
    {
      hide SkipSlashes, SegmentLength, Extract, Increasing;
      var ok, name := ExtractEntrypoint(path, allocOk);
      if !ok { return OutOfMemory, 0; }
      MapOfKeys(Entries(), name);
      if count > 0 {
        var found;
        found, at := BSearch(list, name);
        if found {
          MapOfAt(Entries(), at);
          return Ok, at;
        }
      }
      return NotFound, 0;
    }

    /** Adds an entry point: refused exactly when it is there already. When the array cannot grow, the whole index is
        freed, which the caller's pointer does not survive. */
    method Add(path: string, data: V, allocOk: bool, growOk: bool) returns (status: Status)
      requires Valid()
      modifies this, list
      ensures status == if !allocOk then OutOfMemory else if Extract(path) in old(Map()) then Already
                        else if !growOk then OutOfMemory else Ok
      ensures alive == (status != OutOfMemory || !allocOk) && (alive ==> Valid())
      ensures alive ==> Map() == if status == Ok then old(Map())[Extract(path) := data] else old(Map())
      ensures !alive ==> list == null && count == 0
      ensures Ascending(Entries())
      ensures status == Ok ==> PutIn(old(Entries()), Entries(), Entry(Extract(path), data))
      ensures alive && status != Ok ==> Entries() == old(Entries())
      ensures list == null || list == old(list) || fresh(list)
    {
      hide SkipSlashes, SegmentLength, Extract, Increasing, Inserted, MapOf, SortedBy, Named, Ascending, PutIn, Before;
      IncreasingIs(Entries());
      IncreasingIs<V>([]);
      assert Increasing<V>([]) by { NothingIncreases<V>(); }
      var ok, name := ExtractEntrypoint(path, allocOk);
      if !ok { return OutOfMemory; }
      ghost var s := Entries();
      MapOfKeys(s, name);
      if list != null {
        var found, at := BSearch(list, name);
        if found { return Already; }
      } else {
        NoEntries<V>(name);
      }
      if !growOk {
        list, count, alive := null, 0, false;
        return OutOfMemory;
      }
      var e := Entry(name, data);
      SortedByNew(s, e);
      InsertedIncreases(s, e);
      MapOfInserted(s, e);
      InsertedIsPutIn(s, e);
      IncreasingIs(Inserted(s, e));
      var grown := Grow(e);
      QSort(grown);
      list, count := grown, count + 1;
      return Ok;
    }

    /** The old entries and one more, in a new array. */
    method Grow(e: Entry<V>) returns (grown: array<Entry<V>>)
      requires if list == null then count == 0 else count == list.Length
      ensures fresh(grown) && grown[..] == Entries() + [e]
    {
      grown := new Entry<V>[count + 1](_ => e);
      if list != null {
        forall i | 0 <= i < count { grown[i] := list[i]; }
      }
      assert grown[..count] == Entries();
    }

    /** Removes an entry point, and no other. */
    method Rm(path: string, allocOk: bool) returns (status: Status)
      requires Valid()
      modifies this, list
      ensures Valid()
      ensures status == if !allocOk then OutOfMemory else if Extract(path) in old(Map()) then Ok else NotFound
      ensures Map() == if allocOk then old(Map()) - {Extract(path)} else old(Map())
      ensures list == null || list == old(list) || fresh(list)
    {
      hide SkipSlashes, SegmentLength, Extract, Increasing, MapOf, Named;
      var ok, name := ExtractEntrypoint(path, allocOk);
      if !ok { return OutOfMemory; }
      ghost var s := Entries();
      MapOfKeys(s, name);
      var i := 0;
      while i < count
        invariant list == old(list) && count == old(count) && Entries() == s && Valid()
        invariant 0 <= i <= count && forall j :: 0 <= j < i ==> s[j].name != name
      {
        if Cmp(list[i].name, name) == 0 {
          CmpEqual(list[i].name, name);
          HasEntry(s, i);
          MapOfRemoved(s, i);
          Shrink(i);
          return Ok;
        }
        CmpEqual(list[i].name, name);
        i := i + 1;
      }
      NoSuchEntry(s, name);
      assert MapOf(s) - {name} == MapOf(s);
      return NotFound;
    }

    /** Closes the gap at `i` and gives the last place back. */
    method Shrink(i: nat)
      requires list != null && count == list.Length && i < count
      modifies this`list, this`count, list
      ensures Entries() == old(Entries())[..i] + old(Entries())[i + 1..]
      ensures count == old(count) - 1 && (if list == null then count == 0 else count == list.Length > 0)
      ensures list == null || fresh(list)
    {
      ghost var s := list[..];
      count := count - 1;
      forall j | i <= j < count { list[j] := list[j + 1]; }
      assert list[..count] == s[..i] + s[i + 1..];
      if count == 0 {
        list := null;
      } else {
        var a := list;
        list := new Entry<V>[count](j requires 0 <= j < a.Length reads a => a[j]);
        assert list[..] == a[..count];
      }
    }

    /** Removes everything. */
    method Clear()
      requires Valid()
      modifies this
      ensures Valid() && Map() == map[] && list == null
    {
      list, count := null, 0;
    }
  }

  lemma NoEntries<V>(name: string)
    ensures !Named<V>([], name)
  {
  }

  lemma NothingIncreases<V>()
    ensures Increasing<V>([])
  {
  }

  lemma HasEntry<V>(s: seq<Entry<V>>, i: nat)
    requires i < |s|
    ensures Named(s, s[i].name)
  {
  }

  lemma NoSuchEntry<V>(s: seq<Entry<V>>, name: string)
    requires forall j :: 0 <= j < |s| ==> s[j].name != name
    ensures !Named(s, name)
  {
  }

  // ---------------------------------------------------------------- whole runs

  /** One command does to the index what it does to the map, and reports what it should. */
  method CarryOut<V>(m: Index<V>, c: Command<V>) returns (status: Status)
    requires m.Valid()
    modifies m, m.list
    ensures status == StatusOf(old(m.Map()), c) && m.alive == Apply(old(m.Map()), c).Some?
    ensures m.alive ==> m.Valid() && m.Map() == Apply(old(m.Map()), c).value
    ensures m.list == null || m.list == old(m.list) || fresh(m.list)
  {
    hide Extract, Increasing, MapOf;
    status := Ok;
    match c {
      case Add(path, data, allocOk, growOk) => status := m.Add(path, data, allocOk, growOk);
      case Rm(path, allocOk) => status := m.Rm(path, allocOk);
      case Clear => m.Clear();
    }
  }

  /** Carries out a history of commands on a new index, up to the command that frees it if there is one: the index then
      holds what the history says, and every command has reported what the history says. */
  method Replay<V>(h: seq<Command<V>>) returns (m: Index<V>, reports: seq<Status>)
    ensures fresh(m) && m.alive == After(h).Some?
    ensures m.alive ==> m.Valid() && m.Map() == After(h).value && |reports| == |h| && Ascending(m.Entries())
    ensures |reports| <= |h| && (!m.alive ==> |reports| > 0 && After(h[..|reports|]).None?)
    ensures forall i :: 0 <= i < |reports| ==> ReportsRight(h, i, reports[i])
  {
    hide Extract, Increasing, MapOf, Index.Valid, Index.Map, Apply, StatusOf;
    m := new Index<V>();
    reports := [];
    var i, gone := 0, false;
    assert h[..0] == [];
    while i < |h| && !gone
      invariant 0 <= i <= |h| && |reports| == i && fresh(m) && (m.list == null || fresh(m.list))
      invariant gone == !m.alive == After(h[..i]).None? && (gone ==> i > 0)
      invariant m.alive ==> m.Valid() && m.Map() == After(h[..i]).value
      invariant forall j :: 0 <= j < i ==> ReportsRight(h, j, reports[j])
    {
      assert h[..i + 1][..i] == h[..i];
      var status := CarryOut(m, h[i]);
      gone := Frees(h[i], status);
      FreesIs(After(h[..i]).value, h[i]);
      reports := reports + [status];
      i := i + 1;
    }
    assert h[..|h|] == h;
    if gone { GoneStays(h, i); } else { KeptAscending(m); }
  }

  lemma KeptAscending<V>(m: Index<V>)
    requires m.Valid()
    ensures Ascending(m.Entries())
  {
    IncreasingIs(m.Entries());
  }

  /** Whichever is added first, the entry of `/a` comes before that of `/b`. */
  method SmallerFirst<V>(a: V, b: V, aFirst: bool) returns (m: Index<V>)
    ensures fresh(m) && m.alive && m.Entries() == [Entry("/a", a), Entry("/b", b)]
  {
    hide Extract, Increasing, MapOf, Before, Ascending;
    OneSegment('a');
    OneSegment('b');
    assert "/" + ['a'] == "/a" && "/" + ['b'] == "/b";
    m := new Index<V>();
    var first := if aFirst then Entry("/a", a) else Entry("/b", b);
    var second := if aFirst then Entry("/b", b) else Entry("/a", a);
    var status := m.Add(first.name, first.data, true, true);
    OnlyOne(m.Entries(), first);
    assert m.Map() == map[first.name := first.data];
    status := m.Add(second.name, second.data, true, true);
    TwoEntries(m.Entries(), first, second);
  }

  lemma OneSegment(c: char)
    requires c != '/'
    ensures Extract("/" + [c]) == "/" + [c]
  {
    var path := "/" + [c];
    assert path[1..] == [c] + "";
    ExtractSpec(path, 1, [c], "");
  }

  lemma OnlyOne<V>(s: seq<Entry<V>>, e: Entry<V>)
    requires PutIn([], s, e)
    ensures s == [e]
  {
  }

  lemma TwoEntries<V>(s: seq<Entry<V>>, d: Entry<V>, e: Entry<V>)
    requires PutIn([d], s, e) && {d.name, e.name} == {"/a", "/b"}
    ensures s == if d.name == "/a" then [d, e] else [e, d]
  {
    hide Before;
    var k: nat :| PutAt([d], s, e, k);
    AfterIs();
    if k == 0 {
      assert Before(e.name, [d][0].name);
    } else {
      assert Before([d][0].name, e.name);
    }
  }

  lemma AfterIs()
    ensures !Before("/b", "/a")
  {
    assert "/b"[0] == "/a"[0] && "/b"[1] == 'b' && "/a"[1] == 'a';
    forall k: nat ensures !PartAt("/b", "/a", k) {
      if k == 2 { assert "/b"[..2][1] == 'b' && "/a"[..2][1] == 'a'; }
    }
  }

  /** What the caller sees of a failed growth. */
  predicate Frees<V>(c: Command<V>, status: Status) {
    c.Add? && c.allocOk && status == OutOfMemory
  }

  lemma FreesIs<V>(m: map<string, V>, c: Command<V>)
    ensures Frees(c, StatusOf(m, c)) <==> Apply(m, c).None?
  {
  }

  ghost predicate ReportsRight<V>(h: seq<Command<V>>, i: nat, status: Status)
    requires i < |h|
  {
    After(h[..i]).Some? && status == StatusOf(After(h[..i]).value, h[i])
  }

  lemma {:induction false} GoneStays<V>(h: seq<Command<V>>, i: nat)
    requires i <= |h| && After(h[..i]).None?
    ensures After(h).None?
    decreases |h|
  {
    if i == |h| {
      assert h[..i] == h;
    } else {
      assert h[..|h| - 1][..i] == h[..i];
      GoneStays(h[..|h| - 1], i);
    }
  }

  /** The index with all its entries is gone when the second entry finds no room. */
  method GrowthFrees<V>(path: string, path': string, data: V) returns (m: Index<V>, status: Status)
    requires Extract(path) != Extract(path')
    ensures fresh(m) && !m.alive && m.Entries() == [] && status == OutOfMemory
  {
    hide Extract, Increasing, MapOf;
    m := new Index<V>();
    status := m.Add(path, data, true, true);
    assert m.Map() == map[Extract(path) := data];
    status := m.Add(path', data, true, false);
  }
}
