/** The precedence grammar the compiler implements.

    A `Cst` is a concrete syntax tree, explicit parentheses included. `Proper` is the grammar: it compares each
    operator with its immediate operands only. `Toks` reads the tokens off a tree. The compiler reads an empty
    group `()` wherever an operand may stand, so the trees have it too; the precedence grammar proper is that of
    the `Plain` trees, which have none. `Elab` gives the expression a plain tree denotes, threading variables and
    macros from left to right. */
module ExprGrammar {
  import opened Common
  import opened ExprOps
  import opened ExprLexer
  import opened ExprMachine

  datatype Cst =
    | Lit(text: string)
    | Id(name: string)
    | Un(op: Op, arg: Cst)
    | Bin(op: Op, left: Cst, right: Cst)
    | Paren(inner: Cst)
    | Empty
    | Apply(name: string, args: seq<Cst>)

  /** `left` may stand to the left of `op` without parentheses. */
  predicate LeftOk(left: Cst, op: Op) {
    && (left.Bin? ==> Reduces(op, left.op))
    && (left.Un? ==> Reduces(op, left.op))
  }

  /** `right` may stand to the right of `op` without parentheses. */
  predicate RightOk(right: Cst, op: Op) {
    right.Bin? ==> !Reduces(right.op, op)
  }

  predicate IsCommaNode(c: Cst) {
    c.Bin? && c.op == Comma
  }

  predicate Proper(c: Cst) {
    match c
    case Lit(t) => IsNumber(t)
    case Id(n) => IsWord(n)
    case Un(op, a) => IsUnary(op) && Proper(a) && RightOk(a, op)
    case Bin(op, l, r) => IsBinary(op) && Proper(l) && Proper(r) && LeftOk(l, op) && RightOk(r, op)
    case Paren(a) => Proper(a)
    case Empty => true
    case Apply(n, args) => IsWord(n) && forall a <- args :: Proper(a) && !IsCommaNode(a)
  }

  /** No group is empty. */
  predicate Plain(c: Cst) {
    match c
    case Lit(_) => true
    case Id(_) => true
    case Un(_, a) => Plain(a)
    case Bin(_, l, r) => Plain(l) && Plain(r)
    case Paren(a) => Plain(a)
    case Empty => false
    case Apply(_, args) => forall a <- args :: Plain(a)
  }

  function Toks(c: Cst): seq<string>
    decreases c, 1
  {
    match c
    case Lit(t) => [t]
    case Id(n) => [n]
    case Un(op, a) => [Spelling(op)] + Toks(a)
    case Bin(op, l, r) => Toks(l) + [Spelling(op)] + Toks(r)
    case Paren(a) => ["("] + Toks(a) + [")"]
    case Empty => ["(", ")"]
    case Apply(n, args) => [n, "("] + ToksArgs(args) + [")"]
  }

  /** Arguments separated by commas. */
  function ToksArgs(args: seq<Cst>): seq<string>
    decreases args, 0
  {
    if |args| == 0 then [] else ToksDone(args[..|args| - 1]) + Toks(args[|args| - 1])
  }

  /** Arguments each followed by a comma. */
  function ToksDone(args: seq<Cst>): seq<string>
    decreases args, 0
  {
    if |args| == 0 then []
    else ToksDone(args[..|args| - 1]) + (Toks(args[|args| - 1]) + [","])
  }

  predicate Callable<N>(name: string, env: Env<N>, cx: Config<N>) {
    name == "$" || HasMacro(env.macros, name) || name in cx.funcs
  }

  function Elab<N>(c: Cst, env: Env<N>, cx: Config<N>): (r: Option<(Expr<N>, Env<N>)>)
    ensures r.Some? ==> env.macros <= r.value.1.macros
    decreases c, 1
  {
    match c
    case Lit(t) =>
      var v := ParseNumber(t, cx.ar);
      if v.None? then None else Some((Const(v.value), env))
    case Id(n) => Some((Var(n), Declare(env, n)))
    case Un(op, a) =>
      (match Elab(a, env, cx)
       case None => None
       case Some((x, e)) => Some((Unary(op, x), e)))
    case Bin(op, l, r) =>
      (match Elab(l, env, cx)
       case None => None
       case Some((x, e)) =>
         match Elab(r, e, cx)
         case None => None
         case Some((y, e')) => if op == Assign && !x.Var? then None else Some((Binary(op, x, y), e')))
    case Paren(a) => Elab(a, env, cx)
    case Empty => None
    case Apply(n, args) =>
      if !Callable(n, env, cx) then None
      else
        match ElabArgs(args, env, cx)
        case None => None
        case Some((xs, e)) => CallValue(n, xs, e, cx)
  }

  function CallValue<N>(n: string, xs: seq<Expr<N>>, e: Env<N>, cx: Config<N>): (r: Option<(Expr<N>, Env<N>)>)
    ensures r.Some? ==> e.macros <= r.value.1.macros
  {
    var r := Call(n, xs, e, cx);
    DeclareParamsKeepsMacros(e, 1, |xs|);
    if r.Ok? then Some(r.value) else None
  }

  function ElabArgs<N>(args: seq<Cst>, env: Env<N>, cx: Config<N>): (r: Option<(seq<Expr<N>>, Env<N>)>)
    ensures r.Some? ==> env.macros <= r.value.1.macros
    ensures r.Some? ==> |r.value.0| == |args|
    decreases args, 0
  {
    if |args| == 0 then Some(([], env))
    else
      match ElabArgs(args[..|args| - 1], env, cx)
      case None => None
      case Some((xs, e)) =>
        match Elab(args[|args| - 1], e, cx)
        case None => None
        case Some((x, e')) => Some((xs + [x], e'))
  }

  lemma ElabArgsPush<N>(args: seq<Cst>, c: Cst, env: Env<N>, cx: Config<N>)
    ensures ElabArgs(args + [c], env, cx) ==
            (var a := ElabArgs(args, env, cx);
             if a.None? then None
             else
               var r := Elab(c, a.value.1, cx);
               if r.None? then None else Some((a.value.0 + [r.value.0], r.value.1)))
  {
    assert (args + [c])[..|args|] == args;
  }

  lemma BinaryOf<N>(op: Op, left: Cst, right: Cst, env: Env<N>, cx: Config<N>)
    ensures Elab(Bin(op, left, right), env, cx) ==
            (var l := Elab(left, env, cx);
             if l.None? then None
             else
               var r := Elab(right, l.value.1, cx);
               if r.None? || (op == Assign && !l.value.0.Var?) then None
               else Some((Binary(op, l.value.0, r.value.0), r.value.1)))
  {
  }

  lemma {:induction false} DeclareParamsKeepsMacros<N>(env: Env<N>, j: nat, k: nat)
    requires j <= k + 1
    ensures DeclareParams(env, j, k).macros == env.macros
    decreases k + 1 - j
  {
    if j < k + 1 { DeclareParamsKeepsMacros(Declare(env, ParamName(j)), j + 1, k); }
  }

  lemma {:induction false} HasMacroFinds<N>(macros: seq<Macro<N>>, name: string)
    requires HasMacro(macros, name)
    ensures FindMacro(macros, name).Some?
    decreases |macros|
  {
    if Last(macros).name != name {
      var i :| 0 <= i < |macros| && macros[i].name == name;
      assert Front(macros)[i].name == name;
      HasMacroFinds(Front(macros), name);
    }
  }

  /** A name that was callable when its parenthesis opened is still callable when it closes. */
  lemma CallableCalls<N>(n: string, xs: seq<Expr<N>>, e0: Env<N>, e: Env<N>, cx: Config<N>)
    requires Callable(n, e0, cx) && e0.macros <= e.macros
    ensures !Call(n, xs, e, cx).Undef?
  {
    if HasMacro(e0.macros, n) {
      var i :| 0 <= i < |e0.macros| && e0.macros[i].name == n;
      assert e.macros[i].name == n;
      HasMacroFinds(e.macros, n);
    }
  }

  // ---------------------------------------------------------------- the abstract machine

  /** What the three stacks hold, as pieces of syntax: operators still waiting for their right operand, open
      parentheses, and open calls with the arguments read so far. */
  datatype Entry =
    | UnE(op: Op)
    | BinE(left: Cst, op: Op)
    | ParenE
    | CallE(name: string, args: seq<Cst>)

  datatype Abs = Abs(stack: seq<Entry>, cur: Option<Cst>)

  predicate IsOpEntry(e: Entry) {
    e.UnE? || e.BinE?
  }

  function Combine(e: Entry, c: Cst): Cst
    requires IsOpEntry(e)
  {
    if e.UnE? then Un(e.op, c) else Bin(e.op, e.left, c)
  }

  function ReduceBy(op: Op, g: seq<Entry>, c: Cst): (seq<Entry>, Cst)
    decreases |g|
  {
    if |g| > 0 && IsOpEntry(Last(g)) && Reduces(op, Last(g).op) then ReduceBy(op, Front(g), Combine(Last(g), c))
    else (g, c)
  }

  function ReduceAll(g: seq<Entry>, c: Cst): (seq<Entry>, Cst)
    decreases |g|
  {
    if |g| > 0 && IsOpEntry(Last(g)) then ReduceAll(Front(g), Combine(Last(g), c)) else (g, c)
  }

  /** An operator arriving when the operand `c` is complete. */
  function PushOp(op: Op, g: seq<Entry>, c: Cst): Abs {
    if op == Comma && |g| > 0 && Last(g).CallE? then
      Abs(Front(g) + [CallE(Last(g).name, Last(g).args + [c])], None)
    else Abs(g + [BinE(c, op)], None)
  }

  function CloseTop(g: seq<Entry>, c: Cst): Option<Abs> {
    if |g| == 0 then None
    else
      match Last(g)
      case ParenE => Some(Abs(Front(g), Some(Paren(c))))
      case CallE(n, args) => Some(Abs(Front(g), Some(Apply(n, args + [c]))))
      case _ => None
  }

  function AbsStep(a: Abs, tok: string): Option<Abs> {
    match a.cur
    case None =>
      if IsUnaryTok(tok) then Some(Abs(a.stack + [UnE(Lookup(tok, Any))], None))
      else if IsNumber(tok) then Some(Abs(a.stack, Some(Lit(tok))))
      else if IsWord(tok) then Some(Abs(a.stack, Some(Id(tok))))
      else if tok == "(" then Some(Abs(a.stack + [ParenE], None))
      else if tok == ")" && |a.stack| > 0 && Last(a.stack).CallE? && Last(a.stack).args == [] then
        Some(Abs(Front(a.stack), Some(Apply(Last(a.stack).name, []))))
      else if tok == ")" && |a.stack| > 0 && Last(a.stack).ParenE? then
        Some(Abs(Front(a.stack), Some(Empty)))
      else None
    case Some(c) =>
      if tok == "(" then
        if c.Id? then Some(Abs(a.stack + [CallE(c.name, [])], None)) else None
      else if tok == ")" then
        var (g, c') := ReduceAll(a.stack, c);
        CloseTop(g, c')
      else if IsBinaryTok(tok) then
        var op := Lookup(tok, BinaryOnly);
        var (g, c') := ReduceBy(op, a.stack, c);
        Some(PushOp(op, g, c'))
      else None
  }

  function AbsFeed(a: Abs, toks: seq<string>): Option<Abs>
    decreases |toks|
  {
    if |toks| == 0 then Some(a)
    else
      match AbsStep(a, toks[0])
      case None => None
      case Some(a') => AbsFeed(a', toks[1..])
  }

  function AbsFinish(a: Abs): Option<Cst> {
    match a.cur
    case None => None
    case Some(c) =>
      var (g, c') := ReduceAll(a.stack, c);
      if |g| == 0 then Some(c') else None
  }

  lemma {:induction false} AbsFeedConcat(a: Abs, s: seq<string>, t: seq<string>)
    ensures AbsFeed(a, s + t) == (var m := AbsFeed(a, s); if m.None? then None else AbsFeed(m.value, t))
    decreases |s|
  {
    if |s| == 0 {
      assert s + t == t;
    } else {
      assert (s + t)[0] == s[0] && (s + t)[1..] == s[1..] + t;
      var r := AbsStep(a, s[0]);
      if r.Some? { AbsFeedConcat(r.value, s[1..], t); }
    }
  }

  // ---------------------------------------------------------------- grammar facts

  /** Along the right edge of a proper tree operators bind ever tighter. */
  predicate RightEdgeReduced(c: Cst, op: Op) {
    match c
    case Bin(o, _, r) => Reduces(op, o) && RightEdgeReduced(r, op)
    case Un(o, a) => Reduces(op, o) && RightEdgeReduced(a, op)
    case _ => true
  }

  lemma {:induction false} RightEdge(c: Cst, op: Op)
    requires Proper(c) && LeftOk(c, op) && IsBinary(op)
    ensures RightEdgeReduced(c, op)
    decreases c
  {
    match c
    case Bin(o, l, r) =>
      if r.Bin? { ReducesThrough(op, o, r.op); }
      RightEdge(r, op);
    case Un(o, a) => RightEdge(a, op);
    case _ =>
  }

  /** What `op` may be pushed on directly. */
  predicate SitsOn(op: Op, e: Entry) {
    match e
    case UnE(o) => !Reduces(op, o)
    case BinE(_, o) => !Reduces(op, o)
    case ParenE => true
    case CallE(_, _) => op != Comma
  }

  predicate SitsOnTop(op: Op, g: seq<Entry>) {
    |g| > 0 ==> SitsOn(op, Last(g))
  }

  lemma SitsBelow(b: Op, c: Op, e: Entry)
    requires Reduces(b, c) && SitsOn(b, e) && IsBinary(c)
    ensures SitsOn(c, e)
  {
    match e
    case UnE(o) => ReducesBelow(o, b, c);
    case BinE(_, o) => ReducesBelow(o, b, c);
    case _ =>
  }

  // ---------------------------------------------------------------- completeness on the abstract machine

  /** The entries and the operand that reading a tree leaves behind: its right edge is not yet reduced. */
  function Spine(c: Cst): seq<Entry> {
    match c
    case Bin(op, l, r) => [BinE(l, op)] + Spine(r)
    case Un(op, a) => [UnE(op)] + Spine(a)
    case _ => []
  }

  function Tip(c: Cst): Cst {
    match c
    case Bin(_, _, r) => Tip(r)
    case Un(_, a) => Tip(a)
    case _ => c
  }

  lemma {:induction false} CollapseBy(op: Op, g: seq<Entry>, c: Cst)
    requires RightEdgeReduced(c, op)
    ensures ReduceBy(op, g + Spine(c), Tip(c)) == ReduceBy(op, g, c)
    decreases c
  {
    match c
    case Bin(o, l, r) =>
      assert g + Spine(c) == (g + [BinE(l, o)]) + Spine(r);
      CollapseBy(op, g + [BinE(l, o)], r);
      assert Front(g + [BinE(l, o)]) == g;
    case Un(o, a) =>
      assert g + Spine(c) == (g + [UnE(o)]) + Spine(a);
      CollapseBy(op, g + [UnE(o)], a);
      assert Front(g + [UnE(o)]) == g;
    case _ => assert g + Spine(c) == g;
  }

  lemma {:induction false} CollapseAll(g: seq<Entry>, c: Cst)
    ensures ReduceAll(g + Spine(c), Tip(c)) == ReduceAll(g, c)
    decreases c
  {
    match c
    case Bin(o, l, r) =>
      assert g + Spine(c) == (g + [BinE(l, o)]) + Spine(r);
      CollapseAll(g + [BinE(l, o)], r);
      assert Front(g + [BinE(l, o)]) == g;
    case Un(o, a) =>
      assert g + Spine(c) == (g + [UnE(o)]) + Spine(a);
      CollapseAll(g + [UnE(o)], a);
      assert Front(g + [UnE(o)]) == g;
    case _ => assert g + Spine(c) == g;
  }

  lemma BinarySpelling(op: Op)
    requires IsBinary(op)
    ensures var t := Spelling(op);
      IsBinaryTok(t) && Lookup(t, BinaryOnly) == op && Lookup(t, Any) == op && t != "(" && t != ")"
  {
    LookupSpelling(op);
  }

  lemma UnarySpelling(op: Op)
    requires IsUnary(op)
    ensures var t := Spelling(op); IsUnaryTok(t) && Lookup(t, Any) == op
  {
    LookupSpelling(op);
  }

  /** Reading the tokens of a proper tree onto a stack it may sit on leaves its right edge on the stack. */
  lemma {:induction false} Drive(c: Cst, g: seq<Entry>)
    requires Proper(c) && (c.Bin? ==> SitsOnTop(c.op, g))
    ensures AbsFeed(Abs(g, None), Toks(c)) == Some(Abs(g + Spine(c), Some(Tip(c))))
    decreases c, 1
  {
    hide Lookup, Reduces;
    match c
    case Lit(t) => assert g + [] == g; assert AbsStep(Abs(g, None), t) == Some(Abs(g, Some(c)));
    case Id(n) => assert g + [] == g; assert AbsStep(Abs(g, None), n) == Some(Abs(g, Some(c)));
    case Un(op, a) => DriveUnary(op, a, g);
    case Bin(op, l, r) => DriveBinary(c, op, l, r, g);
    case Paren(a) => DriveParen(a, g);
    case Empty => DriveEmpty(g);
    case Apply(n, args) => DriveCall(n, args, g);
  }

  lemma {:induction false} DriveUnary(op: Op, a: Cst, g: seq<Entry>)
    requires Proper(Un(op, a))
    ensures AbsFeed(Abs(g, None), Toks(Un(op, a))) == Some(Abs(g + Spine(Un(op, a)), Some(Tip(a))))
    decreases Un(op, a), 0
  {
    hide AbsFeed, AbsStep, Reduces, Lookup, Spelling;
    UnaryArrives(op, g);
    AbsFeedConcat(Abs(g, None), [Spelling(op)], Toks(a));
    AbsFeedOne(Abs(g, None), Spelling(op));
    Drive(a, g + [UnE(op)]);
    assert g + [UnE(op)] + Spine(a) == g + Spine(Un(op, a));
  }

  lemma UnaryArrives(op: Op, g: seq<Entry>)
    requires IsUnary(op)
    ensures AbsStep(Abs(g, None), Spelling(op)) == Some(Abs(g + [UnE(op)], None))
  {
    hide Lookup, Spelling;
    UnarySpelling(op);
  }

  lemma {:induction false} DriveParen(a: Cst, g: seq<Entry>)
    requires Proper(a)
    ensures AbsFeed(Abs(g, None), Toks(Paren(a))) == Some(Abs(g, Some(Paren(a)))) && g + Spine(Paren(a)) == g
    decreases Paren(a), 0
  {
    hide AbsFeed, Reduces, Lookup;
    AbsFeedConcat(Abs(g, None), ["("] + Toks(a), [")"]);
    AbsFeedConcat(Abs(g, None), ["("], Toks(a));
    AbsFeedOne(Abs(g, None), "(");
    Drive(a, g + [ParenE]);
    var m := Abs(g + [ParenE] + Spine(a), Some(Tip(a)));
    CollapseAll(g + [ParenE], a);
    AbsFeedOne(m, ")");
    assert Front(g + [ParenE]) == g;
  }

  lemma DriveEmpty(g: seq<Entry>)
    ensures AbsFeed(Abs(g, None), Toks(Empty)) == Some(Abs(g, Some(Empty))) && g + Spine(Empty) == g
  {
    hide AbsFeed, Lookup;
    assert Toks(Empty) == ["("] + [")"];
    AbsFeedConcat(Abs(g, None), ["("], [")"]);
    AbsFeedOne(Abs(g, None), "(");
    AbsFeedOne(Abs(g + [ParenE], None), ")");
    assert Front(g + [ParenE]) == g;
  }

  lemma AbsFeedOne(a: Abs, tok: string)
    ensures AbsFeed(a, [tok]) == AbsStep(a, tok)
  {
  }

  /** A binary operator arriving behind a complete operand. */
  lemma OperatorArrives(op: Op, g: seq<Entry>, c: Cst)
    requires IsBinary(op)
    ensures var (g', c') := ReduceBy(op, g, c); AbsStep(Abs(g, Some(c)), Spelling(op)) == Some(PushOp(op, g', c'))
  {
    hide ReduceBy, PushOp, Lookup;
    BinarySpelling(op);
  }

  /** The left operand is reduced to just what belongs to it. */
  lemma LeftOperandEnds(op: Op, l: Cst, g: seq<Entry>)
    requires IsBinary(op) && Proper(l) && LeftOk(l, op) && SitsOnTop(op, g)
    ensures AbsStep(Abs(g + Spine(l), Some(Tip(l))), Spelling(op)) == Some(Abs(g + [BinE(l, op)], None))
  {
    hide AbsStep, Reduces, Proper, LeftOk;
    RightEdge(l, op);
    CollapseBy(op, g, l);
    OperatorArrives(op, g + Spine(l), Tip(l));
  }

  lemma {:induction false} DriveBinary(c: Cst, op: Op, l: Cst, r: Cst, g: seq<Entry>)
    requires c == Bin(op, l, r) && Proper(c) && SitsOnTop(op, g)
    ensures AbsFeed(Abs(g, None), Toks(c)) == Some(Abs(g + Spine(c), Some(Tip(c))))
    decreases c, 0
  {
    hide AbsStep, AbsFeed, Reduces;
    if l.Bin? && |g| > 0 { SitsBelow(op, l.op, Last(g)); }
    Drive(l, g);
    var m := Abs(g + Spine(l), Some(Tip(l)));
    LeftOperandEnds(op, l, g);
    AbsFeedOne(m, Spelling(op));
    var g' := g + [BinE(l, op)];
    Drive(r, g');
    AbsFeedConcat(Abs(g, None), Toks(l), [Spelling(op)]);
    AbsFeedConcat(Abs(g, None), Toks(l) + [Spelling(op)], Toks(r));
    assert g' + Spine(r) == g + Spine(c);
  }

  lemma {:induction false} DriveCall(n: string, args: seq<Cst>, g: seq<Entry>)
    requires Proper(Apply(n, args))
    ensures AbsFeed(Abs(g, None), Toks(Apply(n, args))) == Some(Abs(g, Some(Apply(n, args))))
    ensures g + Spine(Apply(n, args)) == g
    decreases args, 3
  {
    var a0, a1 := Abs(g, None), Abs(g, Some(Id(n)));
    var a2 := Abs(g + [CallE(n, [])], None);
    assert AbsStep(a0, n) == Some(a1);
    assert AbsStep(a1, "(") == Some(a2);
    AbsFeedOne(a0, n);
    AbsFeedOne(a1, "(");
    assert [n, "("] == [n] + ["("];
    AbsFeedConcat(a0, [n], ["("]);
    DriveArgs(n, args, g);
    AbsFeedConcat(a2, ToksArgs(args), [")"]);
    AbsFeedConcat(a0, [n, "("], ToksArgs(args) + [")"]);
    assert [n, "("] + ToksArgs(args) + [")"] == [n, "("] + (ToksArgs(args) + [")"]);
  }

  lemma {:induction false} DriveArgs(n: string, args: seq<Cst>, g: seq<Entry>)
    requires Proper(Apply(n, args))
    ensures AbsFeed(Abs(g + [CallE(n, [])], None), ToksArgs(args) + [")"]) == Some(Abs(g, Some(Apply(n, args))))
    decreases args, 2
  {
    var a := Abs(g + [CallE(n, [])], None);
    assert Front(a.stack) == g;
    if |args| == 0 {
      assert ToksArgs(args) + [")"] == [")"];
      AbsFeedOne(a, ")");
    } else {
      var done, last := args[..|args| - 1], args[|args| - 1];
      assert args == done + [last];
      DriveDone(n, done, g);
      var h := g + [CallE(n, done)];
      Drive(last, h);
      var m := Abs(h + Spine(last), Some(Tip(last)));
      CollapseAll(h, last);
      assert Front(h) == g;
      AbsFeedOne(m, ")");
      AbsFeedConcat(a, ToksDone(done), Toks(last));
      AbsFeedConcat(a, ToksArgs(args), [")"]);
    }
  }

  lemma {:induction false} DriveDone(n: string, args: seq<Cst>, g: seq<Entry>)
    requires Proper(Apply(n, args))
    ensures AbsFeed(Abs(g + [CallE(n, [])], None), ToksDone(args)) == Some(Abs(g + [CallE(n, args)], None))
    decreases args, 1
  {
    if |args| > 0 {
      var done, last := args[..|args| - 1], args[|args| - 1];
      assert args == done + [last];
      DriveDone(n, done, g);
      var a, h := Abs(g + [CallE(n, [])], None), g + [CallE(n, done)];
      Drive(last, h);
      var m := Abs(h + Spine(last), Some(Tip(last)));
      CommaEndsArg(n, done, last, g);
      AbsFeedOne(m, ",");
      AbsFeedConcat(a, ToksDone(done), Toks(last) + [","]);
      AbsFeedConcat(Abs(h, None), Toks(last), [","]);
    }
  }

  /** Reading what a stack of entries stands for rebuilds that stack. */
  lemma {:induction false} DriveStack(g: seq<Entry>)
    requires StackOk(g)
    ensures AbsFeed(Abs([], None), StackToks(g)) == Some(Abs(g, None))
    decreases |g|
  {
    hide AbsFeed, Toks, Proper;
    if |g| == 0 {
      NothingRead(Abs([], None));
    } else {
      DriveStack(Front(g));
      DriveEntry(Front(g), Last(g));
      assert g == Front(g) + [Last(g)];
      AbsFeedConcat(Abs([], None), StackToks(Front(g)), EntryToks(Last(g)));
    }
  }

  lemma NothingRead(a: Abs)
    ensures AbsFeed(a, []) == Some(a)
  {
  }

  lemma DriveEntry(g: seq<Entry>, e: Entry)
    requires EntryOk(e) && (e.BinE? ==> SitsOnTop(e.op, g))
    ensures AbsFeed(Abs(g, None), EntryToks(e)) == Some(Abs(g + [e], None))
  {
    hide AbsFeed, Reduces, Lookup, Spelling;
    match e
    case UnE(op) =>
      UnaryArrives(op, g);
      AbsFeedOne(Abs(g, None), Spelling(op));
    case BinE(l, op) =>
      if l.Bin? && |g| > 0 { SitsBelow(op, l.op, Last(g)); }
      Drive(l, g);
      LeftOperandEnds(op, l, g);
      AbsFeedOne(Abs(g + Spine(l), Some(Tip(l))), Spelling(op));
      AbsFeedConcat(Abs(g, None), Toks(l), [Spelling(op)]);
    case ParenE => AbsFeedOne(Abs(g, None), "(");
    case CallE(n, args) => DriveOpenCall(n, args, g);
  }

  lemma DriveOpenCall(n: string, args: seq<Cst>, g: seq<Entry>)
    requires Proper(Apply(n, args))
    ensures AbsFeed(Abs(g, None), [n, "("] + ToksDone(args)) == Some(Abs(g + [CallE(n, args)], None))
  {
    var a0, a1 := Abs(g, None), Abs(g, Some(Id(n)));
    AbsFeedOne(a0, n);
    AbsFeedOne(a1, "(");
    assert [n, "("] == [n] + ["("];
    AbsFeedConcat(a0, [n], ["("]);
    DriveDone(n, args, g);
    AbsFeedConcat(a0, [n, "("], ToksDone(args));
  }

  /** Reading on to the comma that ends an argument. */
  lemma DriveArgument(g: seq<Entry>, c: Cst)
    requires StackOk(g) && |g| > 0 && Last(g).CallE? && Proper(c) && !IsCommaNode(c)
    ensures var e := Last(g);
      AbsFeed(Abs([], None), StackToks(g) + Toks(c) + [","])
      == Some(Abs(Front(g) + [CallE(e.name, e.args + [c])], None))
  {
    hide AbsFeed, AbsStep, Toks, Proper, StackOk, StackToks;
    var e := Last(g);
    DriveStack(g);
    Drive(c, g);
    assert g == Front(g) + [CallE(e.name, e.args)];
    CommaEndsArg(e.name, e.args, c, Front(g));
    AbsFeedOne(Abs(g + Spine(c), Some(Tip(c))), ",");
    AbsFeedConcat(Abs([], None), StackToks(g), Toks(c));
    AbsFeedConcat(Abs([], None), StackToks(g) + Toks(c), [","]);
  }

  lemma CommaIsWeakest(c: Cst)
    requires Proper(c) && !IsCommaNode(c)
    ensures LeftOk(c, Comma)
  {
  }

  lemma CommaEndsArg(n: string, done: seq<Cst>, last: Cst, g: seq<Entry>)
    requires Proper(last) && !IsCommaNode(last)
    ensures var h := g + [CallE(n, done)];
      AbsStep(Abs(h + Spine(last), Some(Tip(last))), ",") == Some(Abs(g + [CallE(n, done + [last])], None))
  {
    hide AbsStep, Proper;
    var h := g + [CallE(n, done)];
    CommaIsWeakest(last);
    RightEdge(last, Comma);
    CollapseBy(Comma, h, last);
    assert Front(h) == g;
    assert ReduceBy(Comma, h, last) == (h, last);
    OperatorArrives(Comma, h + Spine(last), Tip(last));
    assert Spelling(Comma) == ",";
  }

  /** The abstract machine rebuilds every proper tree from its tokens. */
  lemma AbsComplete(c: Cst)
    requires Proper(c)
    ensures var a := AbsFeed(Abs([], None), Toks(c)); a.Some? && AbsFinish(a.value) == Some(c)
  {
    Drive(c, []);
    CollapseAll([], c);
    assert [] + Spine(c) == Spine(c);
  }

  /** The grammar is unambiguous: a token sequence has at most one proper tree. */
  lemma Unambiguous(c: Cst, d: Cst)
    requires Proper(c) && Proper(d) && Toks(c) == Toks(d)
    ensures c == d
  {
    AbsComplete(c);
    AbsComplete(d);
  }

  // ---------------------------------------------------------------- soundness on the abstract machine

  predicate Atomic(c: Cst) {
    !c.Bin? && !c.Un?
  }

  predicate EntryOk(e: Entry) {
    match e
    case UnE(op) => IsUnary(op)
    case BinE(l, op) => IsBinary(op) && Proper(l) && LeftOk(l, op)
    case ParenE => true
    case CallE(n, args) => IsWord(n) && forall a <- args :: Proper(a) && !IsCommaNode(a)
  }

  predicate StackOk(g: seq<Entry>)
    decreases |g|
  {
    |g| > 0 ==>
      && EntryOk(Last(g))
      && (Last(g).BinE? ==> SitsOnTop(Last(g).op, Front(g)))
      && StackOk(Front(g))
  }

  predicate AbsOk(a: Abs) {
    StackOk(a.stack) && (a.cur.Some? ==> Proper(a.cur.value) && Atomic(a.cur.value))
  }

  function EntryToks(e: Entry): seq<string> {
    match e
    case UnE(op) => [Spelling(op)]
    case BinE(l, op) => Toks(l) + [Spelling(op)]
    case ParenE => ["("]
    case CallE(n, args) => [n, "("] + ToksDone(args)
  }

  function StackToks(g: seq<Entry>): seq<string>
    decreases |g|
  {
    if |g| == 0 then [] else StackToks(Front(g)) + EntryToks(Last(g))
  }

  /** The tokens the machine has read so far. */
  function AbsToks(a: Abs): seq<string> {
    StackToks(a.stack) + if a.cur.Some? then Toks(a.cur.value) else []
  }

  lemma CombineKeeps(g: seq<Entry>, c: Cst)
    requires StackOk(g) && |g| > 0 && IsOpEntry(Last(g)) && Proper(c) && (c.Bin? ==> SitsOnTop(c.op, g))
    ensures var d := Combine(Last(g), c);
      && StackOk(Front(g)) && Proper(d) && (d.Bin? ==> SitsOnTop(d.op, Front(g)))
      && StackToks(Front(g)) + Toks(d) == StackToks(g) + Toks(c)
  {
    hide Reduces, IsUnary, IsBinary, Spelling;
    CombineToks(g, c);
  }

  lemma CombineToks(g: seq<Entry>, c: Cst)
    requires |g| > 0 && IsOpEntry(Last(g))
    ensures StackToks(Front(g)) + Toks(Combine(Last(g), c)) == StackToks(g) + Toks(c)
  {
    hide Spelling;
    Assoc3(StackToks(Front(g)), EntryToks(Last(g)), Toks(c));
  }

  lemma Assoc3<T>(a: seq<T>, b: seq<T>, c: seq<T>)
    ensures a + b + c == a + (b + c)
  {
  }

  lemma {:induction false} ReduceByKeeps(op: Op, g: seq<Entry>, c: Cst)
    requires StackOk(g) && Proper(c) && LeftOk(c, op) && (c.Bin? ==> SitsOnTop(c.op, g))
    ensures var (g', c') := ReduceBy(op, g, c);
      && StackOk(g') && Proper(c') && LeftOk(c', op) && (c'.Bin? ==> SitsOnTop(c'.op, g'))
      && StackToks(g') + Toks(c') == StackToks(g) + Toks(c)
      && (|g'| > 0 && IsOpEntry(Last(g')) ==> !Reduces(op, Last(g').op))
    decreases |g|
  {
    hide StackOk, Proper, StackToks, Toks, Reduces;
    if |g| > 0 && IsOpEntry(Last(g)) && Reduces(op, Last(g).op) {
      CombineKeeps(g, c);
      ReduceByKeeps(op, Front(g), Combine(Last(g), c));
    }
  }

  lemma {:induction false} ReduceAllKeeps(g: seq<Entry>, c: Cst)
    requires StackOk(g) && Proper(c) && (c.Bin? ==> SitsOnTop(c.op, g))
    ensures var (g', c') := ReduceAll(g, c);
      && StackOk(g') && Proper(c') && (c'.Bin? ==> SitsOnTop(c'.op, g'))
      && StackToks(g') + Toks(c') == StackToks(g) + Toks(c)
      && (|g'| > 0 ==> !IsOpEntry(Last(g')))
    decreases |g|
  {
    hide StackOk, Proper, StackToks, Toks, Reduces;
    if |g| > 0 && IsOpEntry(Last(g)) {
      CombineKeeps(g, c);
      ReduceAllKeeps(Front(g), Combine(Last(g), c));
    }
  }

  lemma StackOkPush(g: seq<Entry>, e: Entry)
    requires StackOk(g) && EntryOk(e) && (e.BinE? ==> SitsOnTop(e.op, g))
    ensures StackOk(g + [e]) && StackToks(g + [e]) == StackToks(g) + EntryToks(e)
  {
    assert Front(g + [e]) == g;
  }

  /** A finished operand joins the arguments of the open call on top of the stack. */
  lemma ArgJoins(n: string, args: seq<Cst>, c: Cst)
    ensures ToksArgs(args + [c]) == ToksDone(args) + Toks(c)
    ensures ToksDone(args + [c]) == ToksDone(args) + (Toks(c) + [","])
  {
    assert (args + [c])[..|args|] == args;
  }

  /** Every step keeps the grammar conditions and adds exactly the token read: nothing is dropped, duplicated or
      reordered. */
  lemma AbsStepKeeps(a: Abs, tok: string)
    requires AbsOk(a) && IsLexeme(tok) && AbsStep(a, tok).Some?
    ensures var a' := AbsStep(a, tok).value; AbsOk(a') && AbsToks(a') == AbsToks(a) + [tok]
  {
    hide AbsOk, AbsToks, ReduceAll, ReduceBy, PushOp, CloseTop, Lookup;
    match a.cur
    case None => OperandKeeps(a, tok);
    case Some(c) =>
      if tok == "(" {
        CallKeeps(a, c);
      } else if tok == ")" {
        CloseKeeps(a, c);
      } else {
        OperatorKeeps(a, c, tok);
      }
  }

  lemma CallKeeps(a: Abs, c: Cst)
    requires AbsOk(a) && a.cur == Some(c) && AbsStep(a, "(").Some?
    ensures var a' := AbsStep(a, "(").value; AbsOk(a') && AbsToks(a') == AbsToks(a) + ["("]
  {
    hide StackOk, StackToks, IsWord, Reduces;
    StackOkPush(a.stack, CallE(c.name, []));
    assert [c.name] + ["("] == [c.name, "("];
  }

  lemma OperandKeeps(a: Abs, tok: string)
    requires AbsOk(a) && a.cur.None? && IsLexeme(tok) && AbsStep(a, tok).Some?
    ensures var a' := AbsStep(a, tok).value; AbsOk(a') && AbsToks(a') == AbsToks(a) + [tok]
  {
    hide StackOk, StackToks, Lookup, Spelling, Reduces;
    if IsUnaryTok(tok) {
      UnaryTokIsSpelling(tok);
      StackOkPush(a.stack, UnE(Lookup(tok, Any)));
    } else if IsNumber(tok) || IsWord(tok) {
      assert Toks(AbsStep(a, tok).value.cur.value) == [tok];
    } else if tok == "(" {
      StackOkPush(a.stack, ParenE);
    } else {
      EmptyKeeps(a.stack);
    }
  }

  lemma UnaryTokIsSpelling(tok: string)
    requires IsUnaryTok(tok)
    ensures IsUnary(Lookup(tok, Any)) && Spelling(Lookup(tok, Any)) == tok
  {
  }

  lemma EmptyKeeps(g: seq<Entry>)
    requires StackOk(g) && |g| > 0
    ensures StackOk(Front(g)) && EntryOk(Last(g))
    ensures Last(g).CallE? && Last(g).args == [] ==>
              StackToks(Front(g)) + Toks(Apply(Last(g).name, [])) == StackToks(g) + [")"]
    ensures Last(g).ParenE? ==> StackToks(Front(g)) + Toks(Empty) == StackToks(g) + [")"]
  {
    hide EntryOk, Toks, EntryToks;
    var e := Last(g);
    if e.CallE? && e.args == [] { EmptyCallToks(e.name); }
    EmptyGroupToks();
    Assoc3(StackToks(Front(g)), EntryToks(e), [")"]);
  }

  lemma EmptyCallToks(n: string)
    ensures Toks(Apply(n, [])) == EntryToks(CallE(n, [])) + [")"]
  {
    assert EntryToks(CallE(n, [])) == [n, "("];
    assert Toks(Apply(n, [])) == [n, "("] + [")"];
  }

  lemma EmptyGroupToks()
    ensures Toks(Empty) == EntryToks(ParenE) + [")"]
  {
  }

  lemma ApplyKeeps(n: string, args: seq<Cst>, c: Cst)
    requires EntryOk(CallE(n, args)) && Proper(c) && !IsCommaNode(c)
    ensures EntryOk(CallE(n, args + [c])) && Proper(Apply(n, args + [c]))
    ensures Toks(Apply(n, args + [c])) == EntryToks(CallE(n, args)) + (Toks(c) + [")"])
    ensures EntryToks(CallE(n, args + [c])) == EntryToks(CallE(n, args)) + (Toks(c) + [","])
  {
    hide IsWord, IsNumber, IsUnary, IsBinary, LeftOk, RightOk, ToksDone, ToksArgs, IsCommaNode;
    assert forall x <- args + [c] :: x in args || x == c;
    ArgJoins(n, args, c);
    Glue([n, "("], ToksDone(args), Toks(c), [")"]);
    Glue([n, "("], ToksDone(args), Toks(c), [","]);
  }

  lemma Glue<T>(a: seq<T>, b: seq<T>, c: seq<T>, d: seq<T>)
    ensures a + (b + c) + d == a + b + (c + d)
    ensures a + (b + (c + d)) == a + b + (c + d)
  {
  }

  lemma Assoc<T>(a: seq<T>, b: seq<T>, c: seq<T>, d: seq<T>)
    ensures a + b + c + d == a + (b + (c + d))
  {
  }

  lemma CloseKeeps(a: Abs, c: Cst)
    requires AbsOk(a) && a.cur == Some(c) && AbsStep(a, ")").Some?
    ensures var a' := AbsStep(a, ")").value; AbsOk(a') && AbsToks(a') == AbsToks(a) + [")"]
  {
    hide Reduces, IsUnary, IsBinary, Lookup;
    ReduceAllKeeps(a.stack, c);
    var (g, c') := ReduceAll(a.stack, c);
    var e := Last(g);
    Assoc(StackToks(Front(g)), EntryToks(e), Toks(c'), [")"]);
    if e.CallE? {
      ApplyKeeps(e.name, e.args, c');
    } else {
      ParenKeeps(c');
    }
  }

  lemma ParenKeeps(c: Cst)
    requires Proper(c)
    ensures Proper(Paren(c)) && Toks(Paren(c)) == EntryToks(ParenE) + (Toks(c) + [")"])
  {
    assert ["("] + Toks(c) + [")"] == ["("] + (Toks(c) + [")"]);
  }

  lemma OperatorKeeps(a: Abs, c: Cst, tok: string)
    requires AbsOk(a) && a.cur == Some(c) && IsBinaryTok(tok) && tok != "(" && tok != ")"
    ensures var a' := AbsStep(a, tok).value; AbsOk(a') && AbsToks(a') == AbsToks(a) + [tok]
  {
    BinaryLookupIsSpelling(tok);
    var op := Lookup(tok, BinaryOnly);
    ReduceByKeeps(op, a.stack, c);
    var (g, c') := ReduceBy(op, a.stack, c);
    PushKeeps(op, g, c');
    assert StackToks(a.stack) + Toks(c) + [tok] == StackToks(g) + Toks(c') + [tok];
  }

  lemma PushKeeps(op: Op, g: seq<Entry>, c: Cst)
    requires IsBinary(op) && StackOk(g) && Proper(c) && LeftOk(c, op) && (c.Bin? ==> SitsOnTop(c.op, g))
    requires |g| > 0 && IsOpEntry(Last(g)) ==> !Reduces(op, Last(g).op)
    ensures var a := PushOp(op, g, c); AbsOk(a) && AbsToks(a) == StackToks(g) + Toks(c) + [Spelling(op)]
  {
    hide Reduces, Proper, Toks, IsBinary;
    if op == Comma && |g| > 0 && Last(g).CallE? {
      var e := Last(g);
      assert !IsCommaNode(c);
      ApplyKeeps(e.name, e.args, c);
      StackOkPush(Front(g), CallE(e.name, e.args + [c]));
      Assoc(StackToks(Front(g)), EntryToks(e), Toks(c), [","]);
    } else {
      StackOkPush(g, BinE(c, op));
      Assoc([], StackToks(g), Toks(c), [Spelling(op)]);
    }
  }
}
