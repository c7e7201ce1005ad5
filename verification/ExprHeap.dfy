/** The two heap structures of the expression compiler: the linked list of variables, and the tree nodes that
    macro expansion copies. */
module ExprHeap {
  import opened ExprOps
  import opened ExprLexer
  import opened ExprMachine

  // ---------------------------------------------------------------- variables

  class VarNode<N> {
    const name: string
    var value: N
    var next: VarNode?<N>

    constructor (name: string, value: N, next: VarNode?<N>)
      ensures this.name == name && this.value == value && this.next == next
    {
      this.name, this.value, this.next := name, value, next;
    }
  }

  function NamesOf<N>(nodes: seq<VarNode<N>>): (r: seq<string>)
    ensures |r| == |nodes| && forall i :: 0 <= i < |nodes| ==> r[i] == nodes[i].name
  {
    seq(|nodes|, i requires 0 <= i < |nodes| => nodes[i].name)
  }

  class VarList<N> {
    var head: VarNode?<N>
    ghost var nodes: seq<VarNode<N>>

    ghost predicate Valid()
      reads this, nodes
    {
      && (|nodes| == 0 ==> head == null)
      && (|nodes| > 0 ==> head == nodes[0] && nodes[|nodes| - 1].next == null)
      && (forall i :: 0 <= i < |nodes| - 1 ==> nodes[i].next == nodes[i + 1])
      && (forall i, j :: 0 <= i < j < |nodes| ==> nodes[i].name != nodes[j].name)
    }

    constructor ()
      ensures Valid() && nodes == []
    {
      head, nodes := null, [];
    }

    /** Finds the variable of that name, or prepends a new one holding zero. Names stay distinct, so a node
        pointer and a name identify each other; nodes handed out before stay in the list with their values. */
    method Lookup(name: string, zero: N) returns (v: VarNode?<N>)
      requires Valid()
      modifies this
      ensures Valid()
      ensures |name| == 0 || !IsFirstVarChr(name[0]) ==> v == null && nodes == old(nodes)
      ensures |name| > 0 && IsFirstVarChr(name[0]) ==>
                && v != null && v.name == name && v in nodes
                && (nodes == old(nodes) || (fresh(v) && nodes == [v] + old(nodes) && v.value == zero))
      ensures |name| > 0 && IsFirstVarChr(name[0]) ==>
                NamesOf(nodes) == Declare(Env<N>.Env(NamesOf(old(nodes)), []), name).vars
    {
      if |name| == 0 || !IsFirstVarChr(name[0]) { return null; }
      v := head;
      ghost var i := 0;
      while v != null
        invariant 0 <= i <= |nodes|
        invariant v == if i < |nodes| then nodes[i] else null
        invariant forall k :: 0 <= k < i ==> nodes[k].name != name
        decreases |nodes| - i
      {
        if v.name == name {
          assert NamesOf(nodes)[i] == name;
          return v;
        }
        v := v.next;
        i := i + 1;
      }
      assert name !in NamesOf(nodes);
      v := new VarNode(name, zero, head);
      head := v;
      nodes := [v] + nodes;
      assert NamesOf(nodes) == [name] + NamesOf(old(nodes));
    }
  }

  // ---------------------------------------------------------------- tree nodes

  datatype Kind<N> = ConstK(value: N) | VarK(name: string) | OpK(op: Op) | FuncK(name: string)

  /** A tree as a value: what a node and its argument buffer represent. */
  datatype Tree<N> = Tree(kind: Kind<N>, args: seq<Tree<N>>)

  class Node<N> {
    var kind: Kind<N>
    var args: seq<Node<N>>
    ghost var repr: set<Node<N>>

    constructor (kind: Kind<N>)
      ensures this.kind == kind && args == [] && repr == {this} && Valid()
    {
      this.kind, args := kind, [];
      repr := {this};
    }

    /** The node roots a tree: its children's node sets are inside its own and leave it out. */
    ghost predicate Valid()
      reads this, repr
      decreases repr
    {
      && this in repr
      && (forall k :: 0 <= k < |args| ==>
            args[k] in repr && args[k].repr < repr && this !in args[k].repr && args[k].Valid())
      && (kind.ConstK? || kind.VarK? ==> args == [])
    }

    ghost function Value(): Tree<N>
      requires Valid()
      reads this, repr
      decreases repr
    {
      Tree(kind, seq(|args|, k requires 0 <= k < |args| && args[k] in repr && args[k].repr < repr && args[k].Valid()
                               reads this, repr
                             => args[k].Value()))
    }

    /** The value of a node, one level deep. */
    lemma ValueIs()
      requires Valid()
      ensures Value().kind == kind && |Value().args| == |args| && (kind.ConstK? || kind.VarK? ==> args == [])
      ensures forall k :: 0 <= k < |args| ==>
                args[k].repr < repr && args[k].Valid() && Value().args[k] == args[k].Value()
    {
    }

    /** Appends an argument that shares no node with this tree. */
    method AddArg(child: Node<N>)
      requires Valid() && child.Valid() && child.repr !! repr && (kind.OpK? || kind.FuncK?)
      modifies this`args, this`repr
      ensures Valid() && kind == old(kind) && repr == old(repr) + old(child.repr)
      ensures Value() == Tree(kind, old(Value()).args + [old(child.Value())])
    {
      args := args + [child];
      repr := repr + child.repr;
    }
  }

  /** Copies a tree node by node: the copy has the same value and shares no node with anything that existed
      before, so assigning through one never shows through the other. */
  method Copy<N>(src: Node<N>) returns (dst: Node<N>)
    requires src.Valid()
    ensures dst.Valid() && fresh(dst.repr) && dst.Value() == src.Value()
    decreases src.repr
  {
    hide Node.Valid, Node.Value;
    dst := new Node(src.kind);
    src.ValueIs();
    dst.ValueIs();
    if src.kind.OpK? || src.kind.FuncK? {
      var i := 0;
      while i < |src.args|
        invariant 0 <= i <= |src.args| && fresh(dst.repr)
        invariant dst.Valid() && dst.kind == src.kind && dst.Value() == Tree(src.kind, src.Value().args[..i])
      {
        var tmp := Copy(src.args[i]);
        dst.AddArg(tmp);
        i := i + 1;
      }
      assert src.Value().args[..|src.args|] == src.Value().args;
    }
  }

  // ---------------------------------------------------------------- trees and expressions

  /** Every node has as many arguments as its kind takes. */
  ghost predicate Shaped<N>(t: Tree<N>) {
    && (match t.kind
        case ConstK(_) => |t.args| == 0
        case VarK(_) => |t.args| == 0
        case OpK(op) => (IsUnary(op) && |t.args| == 1) || (IsBinary(op) && |t.args| == 2)
        case FuncK(_) => true)
    && forall a <- t.args :: Shaped(a)
  }

  /** The expression a tree stands for. */
  function Denoted<N>(t: Tree<N>): Expr<N>
    requires Shaped(t)
  {
    match t.kind
    case ConstK(v) => Const(v)
    case VarK(n) => Var(n)
    case OpK(op) =>
      if |t.args| == 1 then Unary(op, Denoted(t.args[0])) else Binary(op, Denoted(t.args[0]), Denoted(t.args[1]))
    case FuncK(n) => Func(n, seq(|t.args|, k requires 0 <= k < |t.args| => Denoted(t.args[k])))
  }

  ghost predicate WellFormed<N>(e: Expr<N>) {
    match e
    case Unary(op, a) => IsUnary(op) && WellFormed(a)
    case Binary(op, a, b) => IsBinary(op) && WellFormed(a) && WellFormed(b)
    case Func(_, args) => forall a <- args :: WellFormed(a)
    case _ => true
  }

  /** The tree of an expression. */
  function Represented<N>(e: Expr<N>): Tree<N> {
    match e
    case Const(v) => Tree(ConstK(v), [])
    case Var(n) => Tree(VarK(n), [])
    case Unary(op, a) => Tree(OpK(op), [Represented(a)])
    case Binary(op, a, b) => Tree(OpK(op), [Represented(a), Represented(b)])
    case Func(n, args) => Tree(FuncK(n), seq(|args|, k requires 0 <= k < |args| => Represented(args[k])))
  }

  /** Trees and expressions are the same thing: each is given back by the other. */
  lemma {:induction false} DenotedBack<N>(t: Tree<N>)
    requires Shaped(t)
    ensures WellFormed(Denoted(t)) && Represented(Denoted(t)) == t
  {
    forall a <- t.args ensures WellFormed(Denoted(a)) && Represented(Denoted(a)) == a { DenotedBack(a); }
    if t.kind.OpK? {
      assert t.args == if |t.args| == 1 then [t.args[0]] else [t.args[0], t.args[1]];
    }
  }

  lemma {:induction false} RepresentedBack<N>(e: Expr<N>)
    requires WellFormed(e)
    ensures Shaped(Represented(e)) && Denoted(Represented(e)) == e
  {
    match e
    case Unary(_, a) => RepresentedBack(a);
    case Binary(_, a, b) =>
      RepresentedBack(a);
      RepresentedBack(b);
    case Func(n, args) =>
      forall a <- args ensures Shaped(Represented(a)) && Denoted(Represented(a)) == a { RepresentedBack(a); }
    case _ =>
  }

  /** The expressions that some nodes root. */
  ghost predicate Root<N>(nodes: seq<Node<N>>, es: seq<Expr<N>>)
    reads nodes, set k, x | 0 <= k < |nodes| && x in nodes[k].repr :: x
  {
    |nodes| == |es| && forall k :: 0 <= k < |nodes| ==> nodes[k].Valid() && nodes[k].Value() == Represented(es[k])
  }

  /** Copying the items of a macro body for one call: the copies root the same expressions, so the tree the call expands
      to evaluates as if it had been built from the items themselves, and no copy shares a node with an item or with
      another copy. */
  method CopyBody<N>(body: seq<Node<N>>, ghost es: seq<Expr<N>>) returns (copies: seq<Node<N>>)
    requires Root(body, es)
    ensures Root(copies, es) && Root(body, es)
    ensures forall k :: 0 <= k < |copies| ==> fresh(copies[k].repr)
    ensures forall j, k :: 0 <= j < k < |copies| ==> copies[j].repr !! copies[k].repr
  {
    hide Represented;
    copies := [];
    for i := 0 to |body|
      invariant |copies| == i && Root(body, es) && Root(copies, es[..i])
      invariant forall k :: 0 <= k < i ==> fresh(copies[k].repr)
      invariant forall j, k :: 0 <= j < k < i ==> copies[j].repr !! copies[k].repr
    {
      var tmp := Copy(body[i]);
      copies := copies + [tmp];
    }
    assert es[..|es|] == es;
  }
}
