/** Evaluation of expressions with a mutable variable store.

    The source is C, which leaves the order of the two operand evaluations of a strict operator open. An order
    oracle picks it, node by node. Arithmetic, the zero and NaN tests and the extension functions are arbitrary. */
module ExprEval {
  import opened ExprOps
  import opened ExprMachine

  /** Variables that were never written read as zero. */
  type Store<N> = map<string, N>

  datatype Algebra<!N> = Algebra(
    zero: N,
    unary: (Op, N) -> N,
    binary: (Op, N, N) -> N,
    isZero: N -> bool,
    isNaN: N -> bool,
    call: (string, seq<Expr<N>>, Store<N>) -> (N, Store<N>))

  /** True when the left operand of that node is evaluated first. */
  type Order<!N> = Expr<N> -> bool

  function Get<N>(st: Store<N>, name: string, zero: N): N {
    if name in st then st[name] else zero
  }

  /** Operators that evaluate both operands, in an order C leaves open. */
  predicate Strict(op: Op) {
    op != LogicalAnd && op != LogicalOr && op != Assign && op != Comma
  }

  function Eval<N>(e: Expr<N>, st: Store<N>, ord: Order<N>, alg: Algebra<N>): (N, Store<N>) {
    match e
    case Const(v) => (v, st)
    case Var(n) => (Get(st, n, alg.zero), st)
    case Unary(op, a) => var (v, s) := Eval(a, st, ord, alg); (alg.unary(op, v), s)
    case Func(n, args) => alg.call(n, args, st)
    case Binary(op, a, b) =>
      if op == LogicalAnd then
        var (v, s) := Eval(a, st, ord, alg);
        if alg.isZero(v) then (alg.zero, s)
        else
          var (w, s') := Eval(b, s, ord, alg);
          (if alg.isZero(w) then alg.zero else w, s')
      else if op == LogicalOr then
        var (v, s) := Eval(a, st, ord, alg);
        if !alg.isZero(v) && !alg.isNaN(v) then (v, s)
        else
          var (w, s') := Eval(b, s, ord, alg);
          (if alg.isZero(w) then alg.zero else w, s')
      else if op == Assign then
        var (w, s) := Eval(b, st, ord, alg);
        (w, if a.Var? then s[a.name := w] else s)
      else if op == Comma then
        var (_, s) := Eval(a, st, ord, alg);
        Eval(b, s, ord, alg)
      else if ord(e) then
        var (v, s) := Eval(a, st, ord, alg);
        var (w, s') := Eval(b, s, ord, alg);
        (alg.binary(op, v, w), s')
      else
        var (w, s) := Eval(b, st, ord, alg);
        var (v, s') := Eval(a, s, ord, alg);
        (alg.binary(op, v, w), s')
  }

  /** A number is true if it is not zero. The second operand of `&&` is evaluated only if the first is true, and the
      value of a true `&&` is that of the second. */
  lemma AndMeaning<N>(a: Expr<N>, b: Expr<N>, st: Store<N>, ord: Order<N>, alg: Algebra<N>)
    requires alg.isZero(alg.zero)
    ensures var ((v, s), (x, u)) := (Eval(a, st, ord, alg), Eval(Binary(LogicalAnd, a, b), st, ord, alg));
      var (w, t) := Eval(b, s, ord, alg);
      && (alg.isZero(x) <==> alg.isZero(v) || alg.isZero(w)) && (!alg.isZero(x) ==> x == w)
      && u == if alg.isZero(v) then s else t
  {
  }

  /** The second operand of `||` is evaluated only if the first is false or a NaN; a NaN is true on the right. */
  lemma OrMeaning<N>(a: Expr<N>, b: Expr<N>, st: Store<N>, ord: Order<N>, alg: Algebra<N>)
    requires alg.isZero(alg.zero)
    ensures var ((v, s), (x, u)) := (Eval(a, st, ord, alg), Eval(Binary(LogicalOr, a, b), st, ord, alg));
      var (w, t) := Eval(b, s, ord, alg);
      var open := alg.isZero(v) || alg.isNaN(v);
      && (alg.isZero(x) <==> open && alg.isZero(w)) && (!alg.isZero(x) ==> x == if open then w else v)
      && u == if open then t else s
  {
  }

  // ---------------------------------------------------------------- what an expression touches

  predicate CallFree<N>(e: Expr<N>) {
    match e
    case Unary(_, a) => CallFree(a)
    case Binary(_, a, b) => CallFree(a) && CallFree(b)
    case Func(_, _) => false
    case _ => true
  }

  function Reads<N>(e: Expr<N>): set<string> {
    match e
    case Var(n) => {n}
    case Unary(_, a) => Reads(a)
    case Binary(op, a, b) => if op == Assign then Reads(b) else Reads(a) + Reads(b)
    case _ => {}
  }

  function Writes<N>(e: Expr<N>): set<string> {
    match e
    case Unary(_, a) => Writes(a)
    case Binary(op, a, b) =>
      if op == Assign then Writes(b) + (if a.Var? then {a.name} else {}) else Writes(a) + Writes(b)
    case _ => {}
  }

  function Touches<N>(e: Expr<N>): set<string> {
    Reads(e) + Writes(e)
  }

  /** Neither side writes what the other reads or writes. */
  predicate Independent<N>(a: Expr<N>, b: Expr<N>) {
    Writes(a) !! Touches(b) && Writes(b) !! Touches(a)
  }

  /** Every strict operator of the tree has independent, call-free operands. */
  predicate RaceFree<N>(e: Expr<N>) {
    match e
    case Unary(_, a) => RaceFree(a)
    case Binary(op, a, b) =>
      && RaceFree(a) && RaceFree(b)
      && (Strict(op) ==> CallFree(a) && CallFree(b) && Independent(a, b))
    case _ => true
  }

  ghost predicate Agree<N>(s: Store<N>, t: Store<N>, names: set<string>) {
    forall n <- names :: (n in s <==> n in t) && (n in s ==> s[n] == t[n])
  }

  ghost predicate SameOutside<N>(s: Store<N>, t: Store<N>, names: set<string>) {
    forall n :: n !in names ==> (n in s <==> n in t) && (n in s ==> s[n] == t[n])
  }

  /** An expression changes no variable it does not write. */
  lemma {:induction false} WritesOnly<N>(e: Expr<N>, st: Store<N>, ord: Order<N>, alg: Algebra<N>)
    requires CallFree(e)
    ensures SameOutside(st, Eval(e, st, ord, alg).1, Writes(e))
    decreases e
  {
    match e
    case Unary(_, a) => WritesOnly(a, st, ord, alg);
    case Binary(op, a, b) =>
      WritesOnly(a, st, ord, alg);
      WritesOnly(b, st, ord, alg);
      WritesOnly(a, Eval(b, st, ord, alg).1, ord, alg);
      WritesOnly(b, Eval(a, st, ord, alg).1, ord, alg);
    case _ =>
  }

  /** An expression depends on nothing it does not touch: from stores that agree there, it yields the same value
      and leaves stores that agree there. */
  lemma {:induction false} DependsOnTouched<N>(e: Expr<N>, s: Store<N>, t: Store<N>, names: set<string>,
                                               ord: Order<N>, alg: Algebra<N>)
    requires CallFree(e) && Touches(e) <= names && Agree(s, t, names)
    ensures Eval(e, s, ord, alg).0 == Eval(e, t, ord, alg).0
    ensures Agree(Eval(e, s, ord, alg).1, Eval(e, t, ord, alg).1, names)
    decreases e
  {
    hide Agree, Touches, Reads, Writes;
    TouchesParts(e);
    match e
    case Unary(_, a) => DependsOnTouched(a, s, t, names, ord, alg);
    case Binary(op, a, b) =>
      if op == Assign {
        DependsOnTouched(b, s, t, names, ord, alg);
        if a.Var? {
          AgreeUpdate(Eval(b, s, ord, alg).1, Eval(b, t, ord, alg).1, names, a.name, Eval(b, s, ord, alg).0);
        }
      } else {
        DependsOnTouched(a, s, t, names, ord, alg);
        DependsOnTouched(b, s, t, names, ord, alg);
        DependsOnTouched(b, Eval(a, s, ord, alg).1, Eval(a, t, ord, alg).1, names, ord, alg);
        DependsOnTouched(a, Eval(b, s, ord, alg).1, Eval(b, t, ord, alg).1, names, ord, alg);
      }
    case Var(n) => AgreeGet(s, t, names, n, alg.zero);
    case Const(_) =>
  }

  lemma TouchesParts<N>(e: Expr<N>)
    ensures e.Unary? ==> Touches(e.arg) == Touches(e)
    ensures e.Binary? ==> Touches(e.right) <= Touches(e) && (e.op != Assign ==> Touches(e.left) <= Touches(e))
    ensures e.Var? ==> e.name in Touches(e)
  {
  }

  lemma AgreeUpdate<N>(s: Store<N>, t: Store<N>, names: set<string>, x: string, v: N)
    requires Agree(s, t, names)
    ensures Agree(s[x := v], t[x := v], names)
  {
  }

  lemma AgreeGet<N>(s: Store<N>, t: Store<N>, names: set<string>, x: string, zero: N)
    requires Agree(s, t, names) && x in names
    ensures Get(s, x, zero) == Get(t, x, zero)
  {
  }

  /** Two independent expressions commute: same two values and the same final store in either order. */
  lemma Commute<N>(a: Expr<N>, b: Expr<N>, st: Store<N>, ord: Order<N>, alg: Algebra<N>)
    requires CallFree(a) && CallFree(b) && Independent(a, b)
    ensures var (va, sa) := Eval(a, st, ord, alg); var (vb, sb) := Eval(b, st, ord, alg);
      && Eval(b, sa, ord, alg).0 == vb && Eval(a, sb, ord, alg).0 == va
      && Eval(b, sa, ord, alg).1 == Eval(a, sb, ord, alg).1
  {
    var (va, sa) := Eval(a, st, ord, alg);
    var (vb, sb) := Eval(b, st, ord, alg);
    var (vb', sab) := Eval(b, sa, ord, alg);
    var (va', sba) := Eval(a, sb, ord, alg);
    WritesOnly(a, st, ord, alg);
    WritesOnly(b, st, ord, alg);
    WritesOnly(b, sa, ord, alg);
    WritesOnly(a, sb, ord, alg);
    DependsOnTouched(b, st, sa, Touches(b), ord, alg);
    DependsOnTouched(a, st, sb, Touches(a), ord, alg);
    forall n
      ensures (n in sab <==> n in sba) && (n in sab ==> sab[n] == sba[n])
    {
      if n in Writes(a) {
        assert n !in Writes(b) && n in Touches(a);
      } else if n in Writes(b) {
        assert n !in Writes(a) && n in Touches(b);
      }
    }
    assert sab == sba;
  }

  /** The order in which operands are evaluated does not matter in a race-free tree: value and final store are
      the same under any two oracles. */
  lemma {:induction false} OrderIndependent<N>(e: Expr<N>, st: Store<N>, o1: Order<N>, o2: Order<N>, alg: Algebra<N>)
    requires RaceFree(e)
    ensures Eval(e, st, o1, alg) == Eval(e, st, o2, alg)
    decreases e
  {
    hide CallFree, Independent;
    match e
    case Unary(_, a) => OrderIndependent(a, st, o1, o2, alg);
    case Binary(op, a, b) =>
      OrderIndependent(a, st, o1, o2, alg);
      OrderIndependent(b, st, o1, o2, alg);
      OrderIndependent(b, Eval(a, st, o1, alg).1, o1, o2, alg);
      OrderIndependent(a, Eval(b, st, o1, alg).1, o1, o2, alg);
      if CallFree(a) && CallFree(b) && Independent(a, b) { Commute(a, b, st, o1, alg); }
    case _ =>
  }

  // ---------------------------------------------------------------- a fresh choice at every node

  /** The right operand of a logical operator is evaluated too. */
  predicate Goes<N>(op: Op, x: N, alg: Algebra<N>) {
    if op == LogicalAnd then !alg.isZero(x) else alg.isZero(x) || alg.isNaN(x)
  }

  /** `e` may yield `v` and leave the store `s`. Unlike an oracle, which answers alike for equal subtrees, this leaves
      every single evaluation of a strict operator free to choose. */
  ghost predicate Yields<N(!new)>(e: Expr<N>, st: Store<N>, v: N, s: Store<N>, alg: Algebra<N>)
    decreases e, 0
  {
    match e
    case Const(x) => v == x && s == st
    case Var(n) => v == Get(st, n, alg.zero) && s == st
    case Unary(op, a) => exists x :: Yields(a, st, x, s, alg) && v == alg.unary(op, x)
    case Func(n, args) => (v, s) == alg.call(n, args, st)
    case Binary(op, a, b) =>
      if Strict(op) then
        || (exists x, s1, y :: Yields(a, st, x, s1, alg) && Yields(b, s1, y, s, alg) && v == alg.binary(op, x, y))
        || (exists y, s1, x :: Yields(b, st, y, s1, alg) && Yields(a, s1, x, s, alg) && v == alg.binary(op, x, y))
      else if op == Assign then
        exists s1 :: Yields(b, st, v, s1, alg) && s == if a.Var? then s1[a.name := v] else s1
      else
        exists x, s1 :: Yields(a, st, x, s1, alg) && YieldsThen(op, b, x, s1, v, s, alg)
  }

  /** What is left when the left operand of a logical operator or of a comma has given `x` and the store `s1`. */
  ghost predicate YieldsThen<N(!new)>(op: Op, b: Expr<N>, x: N, s1: Store<N>, v: N, s: Store<N>, alg: Algebra<N>)
    decreases b, 1
  {
    if op == Comma then Yields(b, s1, v, s, alg)
    else if Goes(op, x, alg) then exists y :: Yields(b, s1, y, s, alg) && v == if alg.isZero(y) then alg.zero else y
    else v == (if op == LogicalAnd then alg.zero else x) && s == s1
  }

  /** Whatever an oracle gives is one of the possibilities. */
  lemma {:induction false} EvalYields<N(!new)>(e: Expr<N>, st: Store<N>, ord: Order<N>, alg: Algebra<N>)
    ensures Yields(e, st, Eval(e, st, ord, alg).0, Eval(e, st, ord, alg).1, alg)
    decreases e
  {
    match e
    case Unary(op, a) => EvalYields(a, st, ord, alg);
    case Binary(op, a, b) =>
      EvalYields(a, st, ord, alg);
      EvalYields(b, st, ord, alg);
      EvalYields(b, Eval(a, st, ord, alg).1, ord, alg);
      EvalYields(a, Eval(b, st, ord, alg).1, ord, alg);
    case _ =>
  }

  /** In a race-free tree there is one possibility only, so it makes no difference how the choices are made, not even
      when the same subtree is evaluated twice and they differ. */
  lemma {:induction false} YieldsOne<N(!new)>(e: Expr<N>, st: Store<N>, v: N, s: Store<N>, ord: Order<N>, alg: Algebra<N>)
    requires RaceFree(e) && Yields(e, st, v, s, alg)
    ensures (v, s) == Eval(e, st, ord, alg)
    decreases e, 2
  {
    hide CallFree, Independent, YieldsThen;
    match e
    case Unary(op, a) =>
      var x :| Yields(a, st, x, s, alg) && v == alg.unary(op, x);
      YieldsOne(a, st, x, s, ord, alg);
    case Binary(op, a, b) =>
      if Strict(op) {
        StrictYieldsOne(e, st, v, s, ord, alg);
      } else if op == Assign {
        var s1 :| Yields(b, st, v, s1, alg) && s == if a.Var? then s1[a.name := v] else s1;
        YieldsOne(b, st, v, s1, ord, alg);
      } else {
        var x, s1 :| Yields(a, st, x, s1, alg) && YieldsThen(op, b, x, s1, v, s, alg);
        YieldsOne(a, st, x, s1, ord, alg);
        RestYieldsOne(op, b, x, s1, v, s, ord, alg);
      }
    case _ =>
  }

  lemma {:induction false} RestYieldsOne<N(!new)>(op: Op, b: Expr<N>, x: N, s1: Store<N>, v: N, s: Store<N>,
                                                  ord: Order<N>, alg: Algebra<N>)
    requires RaceFree(b) && YieldsThen(op, b, x, s1, v, s, alg)
    ensures var (y, s2) := Eval(b, s1, ord, alg);
      if op == Comma then (v, s) == (y, s2)
      else if Goes(op, x, alg) then (v, s) == (if alg.isZero(y) then alg.zero else y, s2)
      else (v, s) == (if op == LogicalAnd then alg.zero else x, s1)
    decreases b, 3
  {
    hide RaceFree, Yields, Eval, Goes;
    if op == Comma {
      YieldsOne(b, s1, v, s, ord, alg);
    } else if Goes(op, x, alg) {
      var y :| Yields(b, s1, y, s, alg) && v == if alg.isZero(y) then alg.zero else y;
      YieldsOne(b, s1, y, s, ord, alg);
    }
  }

  lemma {:induction false} StrictYieldsOne<N(!new)>(e: Expr<N>, st: Store<N>, v: N, s: Store<N>, ord: Order<N>,
                                                    alg: Algebra<N>)
    requires e.Binary? && Strict(e.op) && RaceFree(e) && Yields(e, st, v, s, alg)
    ensures (v, s) == Eval(e, st, ord, alg)
    decreases e, 1
  {
    hide CallFree, Independent;
    var a, b, op := e.left, e.right, e.op;
    Commute(a, b, st, ord, alg);
    if x, s1, y :| Yields(a, st, x, s1, alg) && Yields(b, s1, y, s, alg) && v == alg.binary(op, x, y) {
      YieldsOne(a, st, x, s1, ord, alg);
      YieldsOne(b, s1, y, s, ord, alg);
    } else {
      var y, s1, x :| Yields(b, st, y, s1, alg) && Yields(a, s1, x, s, alg) && v == alg.binary(op, x, y);
      YieldsOne(b, st, y, s1, ord, alg);
      YieldsOne(a, s1, x, s, ord, alg);
    }
  }

  /** The independence condition is needed: `(x = c) + x` from an unwritten `x` adds `c` to `c` or to zero. */
  lemma RaceMatters<N>(c: N, o1: Order<N>, o2: Order<N>, alg: Algebra<N>)
    requires alg.binary(Plus, c, c) != alg.binary(Plus, c, alg.zero)
    requires var e := Binary(Plus, Binary(Assign, Var("x"), Const(c)), Var("x")); o1(e) && !o2(e)
    ensures var e := Binary(Plus, Binary(Assign, Var("x"), Const(c)), Var("x"));
      !RaceFree(e) && Eval(e, map[], o1, alg) != Eval(e, map[], o2, alg)
  {
    var assign := Binary(Assign, Var("x"), Const(c));
    var e := Binary(Plus, assign, Var("x"));
    assert "x" in Writes(assign) && "x" in Touches(Expr<N>.Var("x"));
    assert Eval(assign, map[], o1, alg) == (c, map["x" := c]);
    assert Eval(e, map[], o1, alg).0 == alg.binary(Plus, c, c);
    assert Eval(assign, map[], o2, alg) == (c, map["x" := c]);
    assert Eval(e, map[], o2, alg).0 == alg.binary(Plus, c, alg.zero);
  }

  // ---------------------------------------------------------------- macros

  /** Arguments evaluated from the left, each assigned to its parameter before the next is evaluated. */
  function AssignParams<N>(args: seq<Expr<N>>, j: nat, st: Store<N>, ord: Order<N>, alg: Algebra<N>): Store<N>
    requires j <= |args|
    decreases |args| - j
  {
    if j == |args| then st
    else
      var (v, s) := Eval(args[j], st, ord, alg);
      AssignParams(args, j + 1, s[ParamName(j + 1) := v], ord, alg)
  }

  /** Items evaluated in order; the value is that of the last, or zero when there is none. */
  function EvalItems<N>(items: seq<Expr<N>>, j: nat, st: Store<N>, ord: Order<N>, alg: Algebra<N>): (N, Store<N>)
    decreases |items| - j
  {
    if j >= |items| then (alg.zero, st)
    else
      var (v, s) := Eval(items[j], st, ord, alg);
      if j == |items| - 1 then (v, s) else EvalItems(items, j + 1, s, ord, alg)
  }

  lemma {:induction false} BodyMeaning<N>(body: seq<Expr<N>>, j: nat, st: Store<N>, ord: Order<N>, alg: Algebra<N>)
    ensures Eval(BodyTree(body, j, alg.zero), st, ord, alg) == EvalItems(body, j, st, ord, alg)
    decreases |body| - j
  {
    if j < |body| - 1 { BodyMeaning(body, j + 1, Eval(body[j], st, ord, alg).1, ord, alg); }
  }

  lemma EvalAssignThen<N>(x: string, arg: Expr<N>, rest: Expr<N>, st: Store<N>, ord: Order<N>, alg: Algebra<N>)
    ensures var (v, s) := Eval(arg, st, ord, alg);
      Eval(Binary(Comma, Binary(Assign, Var(x), arg), rest), st, ord, alg) == Eval(rest, s[x := v], ord, alg)
  {
  }

  /** Macro expansion preserves meaning: evaluating the tree built for a call is assigning the arguments to the
      parameters from the left and then evaluating the body items, under any evaluation order. */
  lemma {:induction false} MacroMeaning<N>(args: seq<Expr<N>>, j: nat, body: seq<Expr<N>>, st: Store<N>,
                                           ord: Order<N>, alg: Algebra<N>)
    requires j <= |args|
    ensures Eval(Expansion(args, j, body, alg.zero), st, ord, alg)
         == EvalItems(body, 1, AssignParams(args, j, st, ord, alg), ord, alg)
    decreases |args| - j
  {
    if j == |args| {
      BodyMeaning(body, 1, st, ord, alg);
    } else {
      EvalAssignThen(ParamName(j + 1), args[j], Expansion(args, j + 1, body, alg.zero), st, ord, alg);
      var (v, s) := Eval(args[j], st, ord, alg);
      MacroMeaning(args, j + 1, body, s[ParamName(j + 1) := v], ord, alg);
    }
  }

  // ---------------------------------------------------------------- simultaneous binding

  lemma {:induction false} DecimalInjective(m: nat, n: nat)
    requires Decimal(m) == Decimal(n)
    ensures m == n
    decreases m
  {
    DecimalLength(m);
    DecimalLength(n);
    if m < 10 || n < 10 {
      assert Last(Decimal(m)) == Last(Decimal(n));
    } else {
      assert Last(Decimal(m)) == Last(Decimal(n));
      assert Front(Decimal(m)) == Decimal(m / 10) && Front(Decimal(n)) == Decimal(n / 10);
      DecimalInjective(m / 10, n / 10);
    }
  }

  lemma {:induction false} DecimalLength(n: nat)
    ensures |Decimal(n)| >= 1 && (|Decimal(n)| == 1 <==> n < 10)
    decreases n
  {
    if n >= 10 { DecimalLength(n / 10); }
  }

  lemma ParamInjective(m: nat, n: nat)
    requires ParamName(m) == ParamName(n)
    ensures m == n
  {
    assert ParamName(m)[1..] == Decimal(m) && ParamName(n)[1..] == Decimal(n);
    DecimalInjective(m, n);
  }

  /** The parameters `$1 .. $j`. */
  function Params(j: nat): set<string> {
    if j == 0 then {} else Params(j - 1) + {ParamName(j)}
  }

  /** Arguments evaluated from the left with no parameter assigned in between: their values and the store they
      leave. */
  function EvalArgs<N>(args: seq<Expr<N>>, j: nat, st: Store<N>, ord: Order<N>, alg: Algebra<N>): (seq<N>, Store<N>)
    requires j <= |args|
    decreases |args| - j
  {
    if j == |args| then ([], st)
    else
      var (v, s) := Eval(args[j], st, ord, alg);
      var (vs, s') := EvalArgs(args, j + 1, s, ord, alg);
      ([v] + vs, s')
  }

  /** The parameters from `$j` on, bound to `vs`. */
  function ParamMap<N>(vs: seq<N>, j: nat): Store<N> {
    if |vs| == 0 then map[] else map[ParamName(j) := vs[0]] + ParamMap(vs[1..], j + 1)
  }

  /** Parameters are distinct variables: each holds its own argument. */
  lemma {:induction false} ParamHolds<N>(vs: seq<N>, j: nat, k: nat)
    requires k < |vs|
    ensures ParamName(j + k) in ParamMap(vs, j) && ParamMap(vs, j)[ParamName(j + k)] == vs[k]
    decreases |vs|
  {
    if k > 0 {
      ParamHolds(vs[1..], j + 1, k - 1);
    } else if ParamName(j) in ParamMap(vs[1..], j + 1) {
      NotLater(vs[1..], j, j + 1);
    }
  }

  lemma {:induction false} NotLater<N>(vs: seq<N>, j: nat, k: nat)
    requires j < k
    ensures ParamName(j) !in ParamMap(vs, k)
    decreases |vs|
  {
    if |vs| > 0 {
      NotLater(vs[1..], j, k + 1);
      if ParamName(j) == ParamName(k) { ParamInjective(j, k); }
    }
  }

  /** No argument is a call, and none touches a parameter assigned before it. */
  predicate ArgsAvoidParams<N>(args: seq<Expr<N>>) {
    forall j :: 0 <= j < |args| ==> CallFree(args[j]) && Params(j) !! Touches(args[j])
  }

  /** Bindings an expression does not touch pass through its evaluation. */
  lemma FrameBindings<N>(e: Expr<N>, st: Store<N>, m: Store<N>, ord: Order<N>, alg: Algebra<N>)
    requires CallFree(e) && m.Keys !! Touches(e)
    ensures var (v, s) := Eval(e, st, ord, alg); Eval(e, st + m, ord, alg) == (v, s + m)
  {
    var (v, s) := Eval(e, st, ord, alg);
    var (w, t) := Eval(e, st + m, ord, alg);
    DependsOnTouched(e, st, st + m, Touches(e), ord, alg);
    WritesOnly(e, st, ord, alg);
    WritesOnly(e, st + m, ord, alg);
    forall n
      ensures (n in t <==> n in s + m) && (n in t ==> t[n] == (s + m)[n])
    {
      if n in Writes(e) { assert n in Touches(e); }
    }
    assert t == s + m;
  }

  lemma {:induction false} ParamsBound<N>(args: seq<Expr<N>>, j: nat, st: Store<N>, m: Store<N>, ord: Order<N>,
                                          alg: Algebra<N>)
    requires j <= |args| && ArgsAvoidParams(args) && m.Keys == Params(j)
    ensures var (vs, s) := EvalArgs(args, j, st, ord, alg);
      AssignParams(args, j, st + m, ord, alg) == s + (m + ParamMap(vs, j + 1))
    decreases |args| - j
  {
    if j == |args| {
      assert m + map[] == m;
    } else {
      var (v, s) := Eval(args[j], st, ord, alg);
      var p := ParamName(j + 1);
      assert CallFree(args[j]) && m.Keys !! Touches(args[j]);
      AssignOne(args, j, st, m, ord, alg);
      NextParam(j, m, v);
      ParamsBound(args, j + 1, s, m[p := v], ord, alg);
      var vs := EvalArgs(args, j + 1, s, ord, alg).0;
      assert ([v] + vs)[1..] == vs;
      BindEarlier(p, v, m, ParamMap(vs, j + 2));
    }
  }

  lemma NextParam<N>(j: nat, m: Store<N>, v: N)
    requires m.Keys == Params(j)
    ensures m[ParamName(j + 1) := v].Keys == Params(j + 1)
  {
  }

  lemma BindEarlier<N>(p: string, v: N, m: Store<N>, ps: Store<N>)
    ensures m[p := v] + ps == m + (map[p := v] + ps)
  {
  }

  lemma AssignOne<N>(args: seq<Expr<N>>, j: nat, st: Store<N>, m: Store<N>, ord: Order<N>, alg: Algebra<N>)
    requires j < |args| && CallFree(args[j]) && m.Keys !! Touches(args[j])
    ensures var (v, s) := Eval(args[j], st, ord, alg);
      AssignParams(args, j, st + m, ord, alg) == AssignParams(args, j + 1, s + m[ParamName(j + 1) := v], ord, alg)
  {
    FrameBindings(args[j], st, m, ord, alg);
    var (v, s) := Eval(args[j], st, ord, alg);
    var p := ParamName(j + 1);
    assert (s + m)[p := v] == s + m[p := v];
  }

  /** When no argument touches an earlier parameter, a macro call is simultaneous parameter binding: evaluate all
      arguments, bind all parameters at once, evaluate the body. */
  lemma MacroIsSimultaneous<N>(args: seq<Expr<N>>, body: seq<Expr<N>>, st: Store<N>, ord: Order<N>, alg: Algebra<N>)
    requires ArgsAvoidParams(args)
    ensures var (vs, s) := EvalArgs(args, 0, st, ord, alg);
      Eval(Expansion(args, 0, body, alg.zero), st, ord, alg) == EvalItems(body, 1, s + ParamMap(vs, 1), ord, alg)
  {
    MacroMeaning(args, 0, body, st, ord, alg);
    var (vs, s) := EvalArgs(args, 0, st, ord, alg);
    ParamsBound(args, 0, st, map[], ord, alg);
    assert st + map[] == st && map[] + ParamMap(vs, 1) == ParamMap(vs, 1);
  }

  // ---------------------------------------------------------------- the evaluator

  /** The evaluator as the source has it: a recursion that returns a number and writes the variable store. */
  class Evaluator<N(0)> {
    const alg: Algebra<N>
    const ord: Order<N>
    var store: Store<N>

    constructor (alg: Algebra<N>, ord: Order<N>, store: Store<N>)
      ensures this.alg == alg && this.ord == ord && this.store == store
    {
      this.alg, this.ord, this.store := alg, ord, store;
    }

    method Run(e: Expr<N>) returns (n: N)
      modifies this`store
      ensures (n, store) == Eval(e, old(store), ord, alg)
      decreases e, 1
    {
      match e
      case Const(v) => return v;
      case Var(x) => return if x in store then store[x] else alg.zero;
      case Unary(op, a) =>
        n := Run(a);
        return alg.unary(op, n);
      case Func(x, args) =>
        n, store := alg.call(x, args, store).0, alg.call(x, args, store).1;
      case Binary(op, a, b) =>
        match op {
          case LogicalAnd =>
            n := Run(a);
            if !alg.isZero(n) {
              n := Run(b);
              if !alg.isZero(n) { return n; }
            }
            return alg.zero;
          case LogicalOr =>
            n := Run(a);
            if !alg.isZero(n) && !alg.isNaN(n) { return n; }
            n := Run(b);
            if !alg.isZero(n) { return n; }
            return alg.zero;
          case Assign =>
            n := Run(b);
            if a.Var? { store := store[a.name := n]; }
          case Comma =>
            n := Run(a);
            n := Run(b);
          case _ => n := RunStrict(e);
        }
    }

    /** The two operands of a strict operator, in either order. */
    method RunStrict(e: Expr<N>) returns (n: N)
      requires e.Binary? && e.op != LogicalAnd && e.op != LogicalOr && e.op != Assign && e.op != Comma
      modifies this`store
      ensures (n, store) == Eval(e, old(store), ord, alg)
      decreases e, 0
    {
      var v, w;
      if ord(e) {
        v := Run(e.left);
        w := Run(e.right);
      } else {
        w := Run(e.right);
        v := Run(e.left);
      }
      return alg.binary(e.op, v, w);
    }
  }
}
