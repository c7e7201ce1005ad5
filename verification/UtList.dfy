/** The singly linked list of isolated requests, on its links: appending at the end and deleting by address. */
module UtList {
  import opened Isolation

  class Cell {
    const id: nat
    var next: Cell?

    constructor (id: nat)
      ensures this.id == id && next == null
    {
      this.id, next := id, null;
    }
  }

  function At(l: seq<Cell>, i: int): Cell? {
    if 0 <= i < |l| then l[i] else null
  }

  ghost function SetOf(l: seq<Cell>): set<Cell> {
    set c | c in l
  }

  /** `head` starts the list `l`, which repeats no cell. */
  ghost predicate Listed(head: Cell?, l: seq<Cell>)
    reads SetOf(l)
  {
    && head == At(l, 0)
    && (forall i, j :: 0 <= i < j < |l| ==> l[i] != l[j])
    && (forall i {:trigger l[i].next} :: 0 <= i < |l| ==> l[i].next == At(l, i + 1))
  }

  /** The names of the cells, as the protocol sees them. */
  function Ids(l: seq<Cell>): (s: seq<nat>)
    ensures |s| == |l| && forall i :: 0 <= i < |l| ==> s[i] == l[i].id
  {
    seq(|l|, i requires 0 <= i < |l| => l[i].id)
  }

  /** Walks to the last cell and hangs the new one behind it. */
  method Append(head0: Cell?, add: Cell, ghost l: seq<Cell>) returns (head: Cell?)
    requires Listed(head0, l) && add !in l
    modifies SetOf(l)`next, add`next
    ensures Listed(head, l + [add]) && Ids(l + [add]) == Ids(l) + [add.id]
  {
    head := head0;
    add.next := null;
    if head != null {
      var tmp := head;
      ghost var i := 0;
      while tmp.next != null
        invariant 0 <= i < |l| && tmp == l[i] && add.next == null
        invariant forall k {:trigger l[k].next} :: 0 <= k < |l| ==> l[k].next == At(l, k + 1)
        decreases |l| - i
      {
        tmp := tmp.next;
        i := i + 1;
      }
      tmp.next := add;
    } else {
      head := add;
    }
    ghost var all := l + [add];
    forall k {:trigger all[k].next} | 0 <= k < |all| ensures all[k].next == At(all, k + 1) {
      assert k < |l| - 1 ==> l[k] != l[|l| - 1];
    }
  }

  /** Unlinks a cell of the list. */
  method Delete(head0: Cell?, del: Cell, ghost l: seq<Cell>, ghost d: nat) returns (head: Cell?)
    requires Listed(head0, l) && d < |l| && l[d] == del
    modifies SetOf(l)`next
    ensures Listed(head, l[..d] + l[d + 1..])
  {
    head := head0;
    if head == del {
      head := head.next;
    } else {
      var tmp := head;
      ghost var i := 0;
      while tmp.next != null && tmp.next != del
        invariant 0 <= i < d && tmp == l[i]
        decreases |l| - i
      {
        tmp := tmp.next;
        i := i + 1;
      }
      if tmp.next != null { tmp.next := del.next; }
    }
    ghost var all := l[..d] + l[d + 1..];
    forall k {:trigger all[k].next} | 0 <= k < |all| ensures all[k].next == At(all, k + 1) {
      assert k < d ==> all[k] == l[k];
      assert k >= d ==> all[k] == l[k + 1];
    }
  }

  lemma {:induction false} RemoveAt(s: seq<nat>, d: nat)
    requires d < |s| && forall i, j :: 0 <= i < j < |s| ==> s[i] != s[j]
    ensures Remove(s, s[d]) == s[..d] + s[d + 1..]
    decreases |s|
  {
    if d > 0 {
      var t := s[1..];
      assert t[d - 1] == s[d] && s[0] != s[d];
      RemoveAt(t, d - 1);
      assert [s[0]] + t[..d - 1] == s[..d] && t[d..] == s[d + 1..];
    }
  }

  /** Cells have names of their own: then deleting a cell removes its name. */
  lemma IdsRemoved(l: seq<Cell>, d: nat)
    requires d < |l| && forall i, j :: 0 <= i < j < |l| ==> l[i].id != l[j].id
    ensures Ids(l[..d] + l[d + 1..]) == Remove(Ids(l), l[d].id)
  {
    RemoveAt(Ids(l), d);
  }
}
